/** FtpRecognitionWorker's per-snapshot work: match every sharp face of a
    snapshot against the stored face vectors (two-tier threshold), hand each
    match to the presence tracker, and optionally delete the processed file
    with a bounded number of attempts. The worker pool around it (channel,
    tasks, cancellation) is not part of this module. */
module RecognitionWorker {
  import opened Common
  import opened Matching
  import FaceFeatures
  import opened TrackStore
  import opened Presence
  import SnapshotSource

  /** The worker's match: the person and the score that won. */
  datatype Match = Match(personId: Guid, score: real)

  /** The smaller of the two thresholds: a match needs a score that reaches
      either, which is reaching this one. */
  function LowerThreshold(opts: PipelineOptions): (t: real)
    ensures t <= opts.similarityThreshold && t <= opts.fallbackSimilarityThreshold
    ensures t == opts.similarityThreshold || t == opts.fallbackSimilarityThreshold
  {
    if opts.similarityThreshold <= opts.fallbackSimilarityThreshold then opts.similarityThreshold
    else opts.fallbackSimilarityThreshold
  }

  /** MatchFaceAsync of the worker: the query is brought to vectorSize, the
      stored vectors are scanned for the first best score, and the winner is
      accepted at the primary threshold, else at the fallback threshold,
      provided its id is not Guid.Empty. */
  function WorkerMatch(vector: seq<real>, candidates: Option<seq<Candidate>>, sim: Similarity,
                       opts: PipelineOptions, vectorSize: int): Option<Match>
  {
    var query := FaceFeatures.Resized(vector, vectorSize);
    if candidates.None? || |candidates.value| == 0 then None
    else
      var b := Scan(candidates.value, query, sim);
      var id := BestId(candidates.value, b);
      if b.score >= opts.similarityThreshold && id != EmptyGuid then Some(Match(id, b.score))
      else if b.score >= opts.fallbackSimilarityThreshold && id != EmptyGuid then Some(Match(id, b.score))
      else None
  }

  /** What the worker's match means, stated through Chosen rather than the
      scan: no candidates, no match; otherwise the Chosen candidate (the
      first eligible one with the greatest score over the resized query) is
      taken iff its id is not Guid.Empty and its score reaches the lower of
      the two thresholds; with no Chosen candidate there is no match. */
  lemma WorkerMatchMeaning(vector: seq<real>, candidates: Option<seq<Candidate>>, sim: Similarity,
                           opts: PipelineOptions, vectorSize: int)
    ensures candidates.None? || |candidates.value| == 0 ==> WorkerMatch(vector, candidates, sim, opts, vectorSize).None?
    ensures candidates.Some? ==>
      var query := FaceFeatures.Resized(vector, vectorSize);
      var cands := candidates.value;
      var r := WorkerMatch(vector, candidates, sim, opts, vectorSize);
      && (forall k :: Chosen(cands, query, sim, k) ==>
            && (r.Some? <==> cands[k].id != EmptyGuid && ScoreOf(cands[k], query, sim) >= LowerThreshold(opts))
            && (r.Some? ==> r.value == Match(cands[k].id, ScoreOf(cands[k], query, sim))))
      && ((forall k :: !Chosen(cands, query, sim, k)) ==> r.None?)
  {
    if candidates.Some? {
      var query := FaceFeatures.Resized(vector, vectorSize);
      var cands := candidates.value;
      var b := Scan(cands, query, sim);
      forall k | Chosen(cands, query, sim, k)
        ensures b.index == k && b.score == ScoreOf(cands[k], query, sim)
      {
        ScanTakesChosen(cands, query, sim, k);
      }
      if b.index >= 0 {
        ScanTakesChosen(cands, query, sim, b.index);
      }
    }
  }

  /** How many times the worker tries to delete a processed snapshot. */
  const MaxDeleteRetry := 3

  /** One deletion attempt: the file was already gone, it was deleted, or
      the existence check or the deletion threw. */
  datatype DeleteAttempt = FileAbsent | FileDeleted | AttemptThrew

  /** How TryDeleteSnapshotFile ended. */
  datatype DeleteOutcome = BlankPath | AlreadyGone | Removed | GaveUp

  datatype DeleteReport = DeleteReport(attempts: nat, outcome: DeleteOutcome)

  /** The attempts from the i-th on: a throwing attempt is retried, any
      other ends the loop, and the third throwing attempt gives up. */
  function DeleteFrom(attempt: nat -> DeleteAttempt, i: nat): DeleteReport
    decreases MaxDeleteRetry - i
  {
    if i >= MaxDeleteRetry then DeleteReport(MaxDeleteRetry, GaveUp)
    else match attempt(i)
      case AttemptThrew => DeleteFrom(attempt, i + 1)
      case FileAbsent => DeleteReport(i + 1, AlreadyGone)
      case FileDeleted => DeleteReport(i + 1, Removed)
  }

  /** TryDeleteSnapshotFile; attempt(i) is what the i-th attempt meets. */
  function DeleteRun(filePath: string, attempt: nat -> DeleteAttempt): DeleteReport
  {
    if IsBlank(filePath) then DeleteReport(0, BlankPath) else DeleteFrom(attempt, 0)
  }

  lemma {:induction false} DeleteFromMeaning(attempt: nat -> DeleteAttempt, i: nat)
    requires i <= MaxDeleteRetry
    requires forall j :: 0 <= j < i ==> attempt(j).AttemptThrew?
    ensures var r := DeleteFrom(attempt, i);
      && i <= r.attempts <= MaxDeleteRetry
      && (i < r.attempts || r.outcome == GaveUp)
      && (forall j :: 0 <= j < r.attempts - 1 ==> attempt(j).AttemptThrew?)
      && (r.outcome == GaveUp <==> r.attempts == MaxDeleteRetry && forall j :: 0 <= j < MaxDeleteRetry ==> attempt(j).AttemptThrew?)
      && (r.outcome == Removed <==> r.attempts > 0 && attempt(r.attempts - 1) == FileDeleted)
      && (r.outcome == AlreadyGone <==> r.attempts > 0 && attempt(r.attempts - 1) == FileAbsent)
      && r.outcome != BlankPath
    decreases MaxDeleteRetry - i
  {
    if i < MaxDeleteRetry && attempt(i).AttemptThrew? {
      DeleteFromMeaning(attempt, i + 1);
    }
  }

  /** A blank path is not touched; otherwise there are one to three
      attempts, every attempt but the last threw, and the outcome is what
      the last attempt met (giving up only when all three threw). */
  lemma DeleteRunMeaning(filePath: string, attempt: nat -> DeleteAttempt)
    ensures var r := DeleteRun(filePath, attempt);
      && r.attempts <= MaxDeleteRetry
      && (r.attempts == 0 <==> IsBlank(filePath))
      && (r.outcome == BlankPath <==> IsBlank(filePath))
      && (forall j :: 0 <= j < r.attempts - 1 ==> attempt(j).AttemptThrew?)
      && (r.outcome == GaveUp <==> !IsBlank(filePath) && forall j :: 0 <= j < MaxDeleteRetry ==> attempt(j).AttemptThrew?)
      && (r.outcome == Removed <==> r.attempts > 0 && attempt(r.attempts - 1) == FileDeleted)
  {
    if !IsBlank(filePath) {
      DeleteFromMeaning(attempt, 0);
    }
  }

  /** What image handling yields for a snapshot: the image does not load, or
      the detector's result (null or a count) and the feature vectors of the
      faces CropAndFilterSharpFaces keeps, in its key order. */
  datatype SnapshotFaces = Unreadable | Detected(detections: Option<nat>, validFaces: seq<seq<real>>)

  /** The faces' fold: the persons handed to the tracker so far, and the
      exception that stopped the loop, if any. */
  datatype FaceRun = FaceRun(tracked: seq<Guid>, failure: Option<string>)

  /** The persons matched, face by face, when no call fails. */
  function Matches(faces: seq<seq<real>>, candidates: Option<seq<Candidate>>, sim: Similarity,
                   opts: PipelineOptions, vectorSize: int): (ids: seq<Guid>)
    ensures |ids| <= |faces|
    decreases |faces|
  {
    if faces == [] then []
    else
      var m := WorkerMatch(faces[|faces| - 1], candidates, sim, opts, vectorSize);
      Matches(faces[..|faces| - 1], candidates, sim, opts, vectorSize) + (if m.Some? then [m.value.personId] else [])
  }

  /** The loop over the valid faces: each matched face is one
      HandleTrackAsync call with the snapshot's camera, time and location;
      the mapping lookup's exception ends the loop. */
  function TrackFaces(s: TrackState, faces: seq<seq<real>>, candidates: Option<seq<Candidate>>, sim: Similarity,
                      opts: PipelineOptions, vectorSize: int, snapshot: SnapshotSource.Snapshot,
                      mapping: MappingLookup, roomConfig: map<string, string>, now: int): (TrackState, FaceRun)
    decreases |faces|
  {
    if faces == [] then (s, FaceRun([], None))
    else
      TrackFace(TrackFaces(s, faces[..|faces| - 1], candidates, sim, opts, vectorSize, snapshot, mapping, roomConfig, now),
                faces[|faces| - 1], candidates, sim, opts, vectorSize, snapshot, mapping, roomConfig, now)
  }

  /** One iteration of that loop, after an earlier exception nothing. */
  function TrackFace(acc: (TrackState, FaceRun), face: seq<real>, candidates: Option<seq<Candidate>>, sim: Similarity,
                     opts: PipelineOptions, vectorSize: int, snapshot: SnapshotSource.Snapshot,
                     mapping: MappingLookup, roomConfig: map<string, string>, now: int): (TrackState, FaceRun)
  {
    var (s1, run) := acc;
    if run.failure.Some? then acc
    else match WorkerMatch(face, candidates, sim, opts, vectorSize)
      case None => acc
      case Some(m) =>
        var (s2, status) := HandleTrackOutcome(s1, m.personId, snapshot.cameraIp, snapshot.captureTimeUtc,
                                               Some(snapshot.location), mapping, roomConfig, now);
        (s2, FaceRun(run.tracked + [m.personId], if status.MappingFailed? then Some(status.error) else None))
  }

  /** HandleTrackAsync keeps the track table well formed. */
  lemma HandleTrackKeepsValid(s: TrackState, personId: Guid, snapIp: string, snapTime: int, fallback: Option<string>,
                              mapping: MappingLookup, roomConfig: map<string, string>, now: int)
    requires StateValid(s)
    ensures StateValid(HandleTrackOutcome(s, personId, snapIp, snapTime, fallback, mapping, roomConfig, now).0)
  {
    var latest := Latest(s.rows, personId);
    if !(latest.Some? && EqualsIgnoreCase(latest.value.snapCameraIp, snapIp)) {
      HandleTrackMeaning(s, personId, snapIp, snapTime, fallback, mapping, roomConfig, now);
    }
  }

  /** The loop hands the tracker a prefix of the matched persons, all of
      them unless the mapping lookup fails (the only way it stops early),
      and keeps the track table well formed. */
  lemma {:induction false} TrackFacesMeaning(s: TrackState, faces: seq<seq<real>>, candidates: Option<seq<Candidate>>,
                                             sim: Similarity, opts: PipelineOptions, vectorSize: int,
                                             snapshot: SnapshotSource.Snapshot, mapping: MappingLookup,
                                             roomConfig: map<string, string>, now: int)
    requires StateValid(s)
    ensures var (s2, run) := TrackFaces(s, faces, candidates, sim, opts, vectorSize, snapshot, mapping, roomConfig, now);
      var ids := Matches(faces, candidates, sim, opts, vectorSize);
      && StateValid(s2)
      && run.tracked <= ids
      && (run.failure.None? ==> run.tracked == ids)
      && (run.failure.Some? ==> mapping.LookupFailed? && run.failure.value == mapping.error && |run.tracked| > 0)
    decreases |faces|
  {
    if faces != [] {
      var init := faces[..|faces| - 1];
      TrackFacesMeaning(s, init, candidates, sim, opts, vectorSize, snapshot, mapping, roomConfig, now);
      var (s1, run) := TrackFaces(s, init, candidates, sim, opts, vectorSize, snapshot, mapping, roomConfig, now);
      var ids1 := Matches(init, candidates, sim, opts, vectorSize);
      var ids := Matches(faces, candidates, sim, opts, vectorSize);
      assert ids1 <= ids;
      var m := WorkerMatch(faces[|faces| - 1], candidates, sim, opts, vectorSize);
      assert ids == ids1 + (if m.Some? then [m.value.personId] else []);
      assert TrackFaces(s, faces, candidates, sim, opts, vectorSize, snapshot, mapping, roomConfig, now)
          == TrackFace((s1, run), faces[|faces| - 1], candidates, sim, opts, vectorSize, snapshot, mapping, roomConfig, now);
      if run.failure.None? && m.Some? {
        HandleTrackKeepsValid(s1, m.value.personId, snapshot.cameraIp, snapshot.captureTimeUtc,
                              Some(snapshot.location), mapping, roomConfig, now);
      }
    }
  }

  /** How ProcessSnapshotAsync ended: nothing to do, stopped by an
      exception after some tracker calls, or done (with the deletion report
      when deletion is configured). */
  datatype ProcessResult =
    | Skipped
    | Aborted(error: string, tracked: seq<Guid>)
    | Processed(tracked: seq<Guid>, deletion: Option<DeleteReport>)

  /** ProcessSnapshotAsync on the track table. mapping is what the mapping
      lookup answers for the snapshot's camera, attempt what the deletion
      attempts meet. */
  function ProcessOutcome(s: TrackState, snapshot: SnapshotSource.Snapshot, faces: SnapshotFaces,
                          candidates: Option<seq<Candidate>>, sim: Similarity, opts: PipelineOptions, vectorSize: int,
                          mapping: MappingLookup, roomConfig: map<string, string>, now: int,
                          attempt: nat -> DeleteAttempt): (TrackState, ProcessResult)
  {
    match faces
    case Unreadable => (s, Skipped)
    case Detected(detections, validFaces) =>
      if detections.None? || detections.value < opts.minFaceCount then (s, Skipped)
      else
        var (s1, run) := TrackFaces(s, validFaces, candidates, sim, opts, vectorSize, snapshot, mapping, roomConfig, now);
        if run.failure.Some? then (s1, Aborted(run.failure.value, run.tracked))
        else (s1, Processed(run.tracked, if opts.deleteProcessedSnapshots then Some(DeleteRun(snapshot.filePath, attempt)) else None))
  }

  /** An unreadable image or too few detections: no tracker call, no
      deletion, the table unchanged. Otherwise every matched face is tracked
      (unless the lookup throws, which also prevents the deletion), and the
      deletion happens iff it is configured, whatever the matches. */
  lemma ProcessMeaning(s: TrackState, snapshot: SnapshotSource.Snapshot, faces: SnapshotFaces,
                       candidates: Option<seq<Candidate>>, sim: Similarity, opts: PipelineOptions, vectorSize: int,
                       mapping: MappingLookup, roomConfig: map<string, string>, now: int,
                       attempt: nat -> DeleteAttempt)
    requires StateValid(s)
    ensures var (s2, r) := ProcessOutcome(s, snapshot, faces, candidates, sim, opts, vectorSize, mapping, roomConfig, now, attempt);
      && StateValid(s2)
      && (r.Skipped? <==> faces.Unreadable? || faces.detections.None? || faces.detections.value < opts.minFaceCount)
      && (r.Skipped? ==> s2 == s)
      && (r.Processed? ==> r.tracked == Matches(faces.validFaces, candidates, sim, opts, vectorSize))
      && (r.Processed? ==> (r.deletion.Some? <==> opts.deleteProcessedSnapshots))
      && (r.Aborted? ==> mapping.LookupFailed? && r.tracked <= Matches(faces.validFaces, candidates, sim, opts, vectorSize))
      && (!mapping.LookupFailed? ==> !r.Aborted?)
  {
    if faces.Detected? && !(faces.detections.None? || faces.detections.value < opts.minFaceCount) {
      TrackFacesMeaning(s, faces.validFaces, candidates, sim, opts, vectorSize, snapshot, mapping, roomConfig, now);
      var run := TrackFaces(s, faces.validFaces, candidates, sim, opts, vectorSize, snapshot, mapping, roomConfig, now).1;
      var r := ProcessOutcome(s, snapshot, faces, candidates, sim, opts, vectorSize, mapping, roomConfig, now, attempt).1;
      assert r.tracked == run.tracked && (r.Processed? <==> run.failure.None?);
    }
  }

  /** The worker with its options and the tracker it hands matches to. */
  class FtpRecognitionWorker {
    const options: PipelineOptions
    const vectorSize: int
    const service: TrackRecordService

    constructor(options: PipelineOptions, vectorSize: int, service: TrackRecordService)
      ensures this.options == options && this.vectorSize == vectorSize && this.service == service
    {
      this.options := options;
      this.vectorSize := vectorSize;
      this.service := service;
    }

    /** MatchFaceAsync: resize, scan, accept at either threshold. */
    method MatchFace(vector: seq<real>, candidates: Option<seq<Candidate>>, sim: Similarity) returns (r: Option<Match>)
      ensures r == WorkerMatch(vector, candidates, sim, options, vectorSize)
    {
      var query := vector;
      if vectorSize > 0 && |query| != vectorSize {
        query := FaceFeatures.Resized(query, vectorSize);
      }
      if candidates.None? || |candidates.value| == 0 {
        return None;
      }
      var bestScore, bestIndex := ScanCandidates(candidates.value, query, sim);
      var bestId := if bestIndex >= 0 then candidates.value[bestIndex].id else EmptyGuid;
      if bestScore >= options.similarityThreshold && bestId != EmptyGuid {
        return Some(Match(bestId, bestScore));
      }
      if bestScore >= options.fallbackSimilarityThreshold && bestId != EmptyGuid {
        return Some(Match(bestId, bestScore));
      }
      return None;
    }

    /** TryDeleteSnapshotFile: nothing for a blank path, else up to three
        attempts, retrying only after an exception. */
    method TryDeleteSnapshotFile(filePath: string, attempt: nat -> DeleteAttempt) returns (report: DeleteReport)
      ensures report == DeleteRun(filePath, attempt)
    {
      if IsBlank(filePath) {
        return DeleteReport(0, BlankPath);
      }
      var i := 0;
      while i < MaxDeleteRetry
        invariant 0 <= i <= MaxDeleteRetry
        invariant DeleteFrom(attempt, i) == DeleteFrom(attempt, 0)
      {
        match attempt(i)
        case FileAbsent => return DeleteReport(i + 1, AlreadyGone);
        case FileDeleted => return DeleteReport(i + 1, Removed);
        case AttemptThrew =>
        i := i + 1;
      }
      return DeleteReport(MaxDeleteRetry, GaveUp);
    }

    /** ProcessSnapshotAsync's loop over the valid faces: match each one and
        track every match, stopping at the mapping lookup's exception. */
    method TrackValidFaces(snapshot: SnapshotSource.Snapshot, validFaces: seq<seq<real>>, candidates: Option<seq<Candidate>>,
                           sim: Similarity, mapping: MappingLookup, now: int)
      returns (tracked: seq<Guid>, failure: Option<string>)
      requires service.tracks.Valid()
      modifies service.tracks
      ensures service.tracks.Valid()
      ensures (TrackState(service.tracks.rows, service.tracks.nextId), FaceRun(tracked, failure))
        == TrackFaces(TrackState(old(service.tracks.rows), old(service.tracks.nextId)), validFaces, candidates,
                      sim, options, vectorSize, snapshot, mapping, service.roomConfig, now)
    {
      ghost var s0 := TrackState(service.tracks.rows, service.tracks.nextId);
      tracked := [];
      failure := None;
      for i := 0 to |validFaces|
        invariant service.tracks.Valid()
        invariant (TrackState(service.tracks.rows, service.tracks.nextId), FaceRun(tracked, None))
          == TrackFaces(s0, validFaces[..i], candidates, sim, options, vectorSize, snapshot, mapping, service.roomConfig, now)
      {
        assert validFaces[..i + 1][..i] == validFaces[..i];
        ghost var acc := (TrackState(service.tracks.rows, service.tracks.nextId), FaceRun(tracked, None));
        assert TrackFaces(s0, validFaces[..i + 1], candidates, sim, options, vectorSize, snapshot, mapping, service.roomConfig, now)
            == TrackFace(acc, validFaces[i], candidates, sim, options, vectorSize, snapshot, mapping, service.roomConfig, now);
        var m := MatchFace(validFaces[i], candidates, sim);
        if m.None? {
          continue;
        }
        var status := service.HandleTrack(m.value.personId, snapshot.cameraIp, snapshot.captureTimeUtc,
                                          Some(snapshot.location), mapping, now);
        tracked := tracked + [m.value.personId];
        if status.MappingFailed? {
          failure := Some(status.error);
          assert validFaces[..|validFaces|] == validFaces;
          TrackFailureStops(s0, validFaces, i + 1, candidates, sim, options, vectorSize, snapshot, mapping, service.roomConfig, now);
          return;
        }
      }
      assert validFaces[..|validFaces|] == validFaces;
    }

    /** ProcessSnapshotAsync: give up on an unreadable image or too few
        detections; otherwise track every matched valid face, then delete
        the file when configured. An exception from the tracker ends the
        snapshot's processing there. */
    method ProcessSnapshot(snapshot: SnapshotSource.Snapshot, faces: SnapshotFaces, candidates: Option<seq<Candidate>>,
                           sim: Similarity, mapping: MappingLookup, now: int, attempt: nat -> DeleteAttempt)
      returns (result: ProcessResult)
      requires service.tracks.Valid()
      modifies service.tracks
      ensures service.tracks.Valid()
      ensures (TrackState(service.tracks.rows, service.tracks.nextId), result)
        == ProcessOutcome(TrackState(old(service.tracks.rows), old(service.tracks.nextId)), snapshot, faces, candidates,
                          sim, options, vectorSize, mapping, service.roomConfig, now, attempt)
    {
      if faces.Unreadable? {
        return Skipped;
      }
      if faces.detections.None? || faces.detections.value < options.minFaceCount {
        return Skipped;
      }
      var tracked, failure := TrackValidFaces(snapshot, faces.validFaces, candidates, sim, mapping, now);
      if failure.Some? {
        return Aborted(failure.value, tracked);
      }
      var deletion := None;
      if options.deleteProcessedSnapshots {
        var report := TryDeleteSnapshotFile(snapshot.filePath, attempt);
        deletion := Some(report);
      }
      return Processed(tracked, deletion);
    }
  }

  /** Once the loop has stopped on an exception, later faces change nothing. */
  lemma {:induction false} TrackFailureStops(s: TrackState, faces: seq<seq<real>>, i: nat, candidates: Option<seq<Candidate>>,
                                             sim: Similarity, opts: PipelineOptions, vectorSize: int,
                                             snapshot: SnapshotSource.Snapshot, mapping: MappingLookup,
                                             roomConfig: map<string, string>, now: int)
    requires i <= |faces|
    requires TrackFaces(s, faces[..i], candidates, sim, opts, vectorSize, snapshot, mapping, roomConfig, now).1.failure.Some?
    ensures TrackFaces(s, faces, candidates, sim, opts, vectorSize, snapshot, mapping, roomConfig, now)
         == TrackFaces(s, faces[..i], candidates, sim, opts, vectorSize, snapshot, mapping, roomConfig, now)
    decreases |faces| - i
  {
    if i < |faces| {
      assert faces[..i + 1][..i] == faces[..i];
      TrackFailureStops(s, faces, i + 1, candidates, sim, opts, vectorSize, snapshot, mapping, roomConfig, now);
    } else {
      assert faces[..i] == faces;
    }
  }
}
