/** The linear best-candidate scan shared by FtpRecognitionWorker and
    FaceVerificationService: every stored face vector of the right length is
    scored against the query, and the first one with the greatest score wins
    (the comparison is a strict '>', starting from float.MinValue). */
module Matching {
  import opened Common
  import FaceFeatures

  /** float.MinValue, the score the scans start from. */
  const FloatMinValue: real := -340282346638528859811704183484516925440.0

  /** A stored face vector record: id, user name and a vector that may be null. */
  datatype Candidate = Candidate(id: Guid, userName: string, vector: Option<seq<real>>)

  /** The similarity of two vectors of equal length (cosine in the source). */
  type Similarity = (seq<real>, seq<real>) -> real

  /** A candidate the scan scores: its vector is present, non-empty and as
      long as the query. */
  predicate Eligible(c: Candidate, query: seq<real>)
  {
    c.vector.Some? && |c.vector.value| != 0 && |c.vector.value| == |query|
  }

  /** CalculateSimilarity(query, candidate vector), which accepts an
      eligible candidate. */
  function ScoreOf(c: Candidate, query: seq<real>, sim: Similarity): real
    requires Eligible(c, query)
  {
    FaceFeatures.CalculateSimilarity(Some(query), c.vector, sim).value
  }

  /** The state of a scan: the best score so far and the index of the
      candidate that set it (-1 while none has). */
  datatype Best = Best(score: real, index: int)

  /** b names the first eligible candidate whose score is the greatest, when
      that score beats float.MinValue; otherwise b is the start state. */
  predicate IsFirstBest(cands: seq<Candidate>, query: seq<real>, sim: Similarity, b: Best)
  {
    && -1 <= b.index < |cands|
    && (b.index == -1 ==>
          && b.score == FloatMinValue
          && forall i :: 0 <= i < |cands| && Eligible(cands[i], query) ==>
               ScoreOf(cands[i], query, sim) <= FloatMinValue)
    && (b.index >= 0 ==>
          && Eligible(cands[b.index], query)
          && b.score == ScoreOf(cands[b.index], query, sim)
          && b.score > FloatMinValue
          && (forall i :: 0 <= i < |cands| && Eligible(cands[i], query) ==>
                ScoreOf(cands[i], query, sim) <= b.score)
          && (forall i :: 0 <= i < b.index && Eligible(cands[i], query) ==>
                ScoreOf(cands[i], query, sim) < b.score))
  }

  /** The outcome of scanning cands in order. */
  function Scan(cands: seq<Candidate>, query: seq<real>, sim: Similarity): (b: Best)
    ensures IsFirstBest(cands, query, sim, b)
    decreases |cands|
  {
    if cands == [] then Best(FloatMinValue, -1)
    else
      var init := cands[..|cands| - 1];
      var c := cands[|cands| - 1];
      var b := Scan(init, query, sim);
      assert forall i :: 0 <= i < |init| ==> cands[i] == init[i];
      if Eligible(c, query) && ScoreOf(c, query, sim) > b.score then Best(ScoreOf(c, query, sim), |cands| - 1)
      else b
  }

  /** The description pins the scan's outcome down. */
  lemma FirstBestIsUnique(cands: seq<Candidate>, query: seq<real>, sim: Similarity, b1: Best, b2: Best)
    requires IsFirstBest(cands, query, sim, b1) && IsFirstBest(cands, query, sim, b2)
    ensures b1 == b2
  {
    if b1.index >= 0 && b2.index >= 0 {
      assert ScoreOf(cands[b1.index], query, sim) <= b2.score;
      assert ScoreOf(cands[b2.index], query, sim) <= b1.score;
    }
  }

  /** The id the scan ends with: Guid.Empty while no candidate has been taken. */
  function BestId(cands: seq<Candidate>, b: Best): (id: Guid)
    requires -1 <= b.index < |cands|
    ensures b.index >= 0 ==> id == cands[b.index].id
    ensures b.index == -1 ==> id == EmptyGuid
  {
    if b.index >= 0 then cands[b.index].id else EmptyGuid
  }

  /** The scan loop: skip candidates with a null, empty or mismatched
      vector, keep a candidate whose score beats the best so far. */
  method ScanCandidates(cands: seq<Candidate>, query: seq<real>, sim: Similarity)
    returns (bestScore: real, bestIndex: int)
    ensures Best(bestScore, bestIndex) == Scan(cands, query, sim)
  {
    bestScore := FloatMinValue;
    bestIndex := -1;
    for i := 0 to |cands|
      invariant Best(bestScore, bestIndex) == Scan(cands[..i], query, sim)
    {
      assert cands[..i + 1][..i] == cands[..i];
      var candidate := cands[i];
      if candidate.vector.None? || |candidate.vector.value| == 0 {
        continue;
      }
      if |candidate.vector.value| != |query| {
        continue;
      }
      var score := FaceFeatures.CalculateSimilarity(Some(query), candidate.vector, sim).value;
      if score > bestScore {
        bestScore := score;
        bestIndex := i;
      }
    }
    assert cands[..|cands|] == cands;
  }

  /** The first eligible candidate with the greatest score, when that score
      beats float.MinValue: the candidate a scan settles on, described
      without the scan. */
  predicate Chosen(cands: seq<Candidate>, query: seq<real>, sim: Similarity, k: int)
  {
    && 0 <= k < |cands|
    && Eligible(cands[k], query)
    && ScoreOf(cands[k], query, sim) > FloatMinValue
    && (forall i :: 0 <= i < |cands| && Eligible(cands[i], query) ==>
          ScoreOf(cands[i], query, sim) <= ScoreOf(cands[k], query, sim))
    && (forall i :: 0 <= i < k && Eligible(cands[i], query) ==>
          ScoreOf(cands[i], query, sim) < ScoreOf(cands[k], query, sim))
  }

  /** The scan takes a candidate exactly when one is Chosen, and then takes
      that one, with its score. */
  lemma ScanTakesChosen(cands: seq<Candidate>, query: seq<real>, sim: Similarity, k: int)
    ensures var b := Scan(cands, query, sim);
      Chosen(cands, query, sim, k) <==> b.index == k && k >= 0
    ensures var b := Scan(cands, query, sim);
      Chosen(cands, query, sim, k) ==> b.score == ScoreOf(cands[k], query, sim)
  {
    var b := Scan(cands, query, sim);
    if Chosen(cands, query, sim, k) {
      FirstBestIsUnique(cands, query, sim, b, Best(ScoreOf(cands[k], query, sim), k));
    }
  }

  /** The PipelineOptions that bear on matching and on the worker. */
  datatype PipelineOptions = PipelineOptions(
    minFaceCount: int,
    similarityThreshold: real,
    fallbackSimilarityThreshold: real,
    deleteProcessedSnapshots: bool)

  /** The documented defaults (the thresholds are the floats 0.87f and 0.78f). */
  const DefaultOptions := PipelineOptions(1, 0.87, 0.78, false)

  /** FaceRecognitionOptions.VectorSize's default. */
  const DefaultVectorSize := 512
}
