# FaceRecoTrackService, modelled in Dafny

FaceRecoTrackService watches a folder that cameras upload snapshots to. For each
snapshot it detects faces, picks the sharp ones and matches each against the
registered persons. Every match is a sighting that extends or starts a presence
segment in a track table. Around this pipeline the service keeps a topology of
face cameras, record cameras and bindings between them. It also offers
image-level checks (is this one clear face, are these two the same person,
who is this) and guards its calls to a vector index.

This project models the decision and bookkeeping code of that service. The
neural networks, the image library, the database and the vector index are
abstract. Each is an oracle (a function parameter) or a table held in memory.

- `Common` (common.dfy): .NET string helpers: white space, `Trim`,
  OrdinalIgnoreCase comparison, `IndexOf`. It also holds generic sequence
  helpers: filter, count, stable sort, take.
- `SnapshotSource` (snapshot_source.dfy): the folder poller
  `FtpFolderSnapshotClient`. The class `FolderSnapshotClient` owns the
  fingerprint dictionary `path -> (lastWriteUtc, length)`. Each poll takes the
  20 oldest files and emits new or changed ones. It then prunes fingerprints of
  files outside the batch. Snapshot file names `ip_gender_timestamp…` are
  parsed without any path that throws. The file system is an abstract map of
  what each probe sees. Local-time parsing and UTC conversion are oracles.
- `TrackStore` (track_store.dfy): the `track_records` table of
  `PgTrackRepository`. It is a class over a sequence of rows plus the next id
  of the `bigserial` key.
- `Presence` (presence.dfy): `TrackRecordService.HandleTrackAsync`, the
  presence transition. The same camera continues the segment. Any other camera
  closes the latest segment and opens a new one, whose location is resolved
  through mapping room, room table, fallback location, then "".
- `CameraTables` (camera_tables.dfy): the face-camera, record-camera and
  binding tables of `PgFaceCameraRepository` and `PgRecordCameraRepository`,
  plus the binding store. Both camera kinds share one row type, with their own
  id counters. The tables keep the schema's UNIQUE IP and ON DELETE CASCADE
  constraints as an invariant.
- `CameraServiceModel` (camera_service.dfy): `CameraService`, which covers
  id-or-IP addressing, trimming, existence checks and rebind/unbind precedence.
- `FaceFeatures` (feature.dfy): `ResizeVector` on arrays, and the argument
  check of `CalculateSimilarity`.
- `Matching` (matching.dfy): the linear best-candidate scan shared by the
  recognition worker and the local path of the verification service.
- `RecognitionWorker` (worker.dfy): `FtpRecognitionWorker`, covering matching
  with two-tier acceptance, the per-snapshot control flow and the bounded
  delete retry.
- `FaceVerification` (verification.dfy): `FaceVerificationService`, covering
  the Check decision tree, the Compare threshold rule and recognition by the
  vector index with a local fallback.
- `FaceDetection` (detector.dfy): `FaceDetector` post-processing, covering
  crop geometry, sharp-face filtering with statistics, NMS index filtering,
  tensor layout, score and box clamping.
- `VectorCollections` (vector_collections.dfy): `QdrantVectorManager`,
  covering collection-name validation, create/ensure decisions and argument
  checks.
- `Base64Image` (base64.dfy): `Base64Helper.DecodeImage`. It strips data URLs
  (RFC 2397) and decodes standard base64 (section 4 of RFC 4648). The model
  proves that decoding undoes encoding, with and without a data-URL header.

## Model

All paths are under `FaceRecoTrackService/`.

| member | source | states |
|---|---|---|
| SnapshotSource.ParseMetaFromFileName | FaceRecoTrackService/Infrastructure/External/FtpFolderSnapshotClient.cs:200-243 | Defined for every path; the location is always the default. With `parts` the name split on '_' with empty entries removed: the IP and camera name are `parts[0]` exactly when it contains '.', else "" and the default name. The gender is 1 iff `parts[1]` is "1", 0 iff it is "0", and -1 otherwise. The capture time comes from the third token. |
| SnapshotSource.ParseTokenizedName | FaceRecoTrackService/Infrastructure/External/FtpFolderSnapshotClient.cs:204-224 | For any path `dir/t0_t1_….ext`, well formed or not: IP and name are t0 iff it holds a '.', and the gender is 1, 0 or -1 by whether t1 is "1", "0" or anything else (or absent). |
| SnapshotSource.UnknownGenderToken | FaceRecoTrackService/Infrastructure/External/FtpFolderSnapshotClient.cs:216-224 | "10.0.0.1_2_x.jpg" gives gender -1, IP "10.0.0.1" and the creation time as capture time. |
| SnapshotSource.ParseWellFormedName | FaceRecoTrackService/Infrastructure/External/FtpFolderSnapshotClient.cs:204-240 | For a path `dir/ip_g_stamp[_more].ext` with a 14- or 17-digit stamp: IP and name are the IP token and gender is 1 or 0 from the token. The capture time is the UTC conversion of the stamp read with the 17- or 14-digit format, or the creation time when that parse fails. |
| SnapshotSource.MetaOfTokens | FaceRecoTrackService/Infrastructure/External/FtpFolderSnapshotClient.cs:205-240 | The same result, stated for any path whose name splits into such tokens. |
| SnapshotSource.CaptureTimeOfStamp | FaceRecoTrackService/Infrastructure/External/FtpFolderSnapshotClient.cs:226-240 | A 14- or 17-digit third token passes the numeric test. The first 17 or 14 characters are parsed with the matching format, and a failed parse keeps the creation time. |
| SnapshotSource.StampParses | FaceRecoTrackService/Infrastructure/External/FtpFolderSnapshotClient.cs:227 | A 14- or 17-digit token parses as a 64-bit integer. |
| SnapshotSource.FileNameOfPath | FaceRecoTrackService/Infrastructure/External/FtpFolderSnapshotClient.cs:204 | The file name without extension of `dir/name.ext` is `name`. |
| SnapshotSource.SplitJoin | FaceRecoTrackService/Infrastructure/External/FtpFolderSnapshotClient.cs:205 | Splitting on '_' with empty entries removed gives back the non-empty tokens that were joined. |
| SnapshotSource.ReadOutcomeMeaning | FaceRecoTrackService/Infrastructure/External/FtpFolderSnapshotClient.cs:157-195 | The read gives bytes iff some attempt below the limit of 3 reads, with every earlier attempt failing in a retryable way. The bytes are those of that first successful attempt. |
| SnapshotSource.TryReadAllBytesWithRetry | FaceRecoTrackService/Infrastructure/External/FtpFolderSnapshotClient.cs:157-195 | The retry loop gives that outcome. Any bytes returned come from one of the first 3 attempts. |
| SnapshotSource.Step | FaceRecoTrackService/Infrastructure/External/FtpFolderSnapshotClient.cs:63-140 | A file missing at the first probes changes nothing, and one with an unchanged fingerprint is skipped; any other file gets its current fingerprint recorded. A file is emitted iff its fingerprint is new, it is at most 10 MB, it still exists before the read and the read gives non-empty bytes. The snapshot then carries its own path, those bytes and the metadata parsed from its name. A file gone before the read is never emitted. |
| SnapshotSource.Run | FaceRecoTrackService/Infrastructure/External/FtpFolderSnapshotClient.cs:61-141 | A batch emits at most one snapshot per file, only for files of the batch, and adds fingerprints only for files of the batch. |
| SnapshotSource.RunEmitsReadSnapshots | FaceRecoTrackService/Infrastructure/External/FtpFolderSnapshotClient.cs:61-141 | Every emitted snapshot is built from its own file's first successful read, with the creation time and file-name metadata of that file. |
| SnapshotSource.RunEmitsChanged | FaceRecoTrackService/Infrastructure/External/FtpFolderSnapshotClient.cs:61-140 | Each batch file that is new or changed, at most 10 MB, still present and readable is emitted with the bytes read, unless an earlier file of the batch with the same name up to case took its fingerprint. |
| SnapshotSource.PollEmitsChanged | FaceRecoTrackService/Infrastructure/External/FtpFolderSnapshotClient.cs:30-146 | The same for a whole poll: such a file of the 20-file batch comes out of the poll. |
| SnapshotSource.Prune | FaceRecoTrackService/Infrastructure/External/FtpFolderSnapshotClient.cs:148-155 | Exactly the fingerprints of listed files (case-insensitive) survive, with their values unchanged. |
| SnapshotSource.PruneRemovesUnlisted | FaceRecoTrackService/Infrastructure/External/FtpFolderSnapshotClient.cs:148-155 | Removing the unlisted keys one by one, as the method does, gives exactly that map. |
| SnapshotSource.CappedIsOldest | FaceRecoTrackService/Infrastructure/External/FtpFolderSnapshotClient.cs:51-59 | The batch holds min(20, files) files, ordered by last-write time. Every file is from the listing, and none left out is older than one taken. |
| Common.SortByStable | FaceRecoTrackService/Infrastructure/External/FtpFolderSnapshotClient.cs:51 | The ordering by last-write time is stable: for every key, the files with that key keep their listing order. So among equal times the cap keeps the earliest listed. |
| SnapshotSource.RunKeepsOrder | FaceRecoTrackService/Infrastructure/External/FtpFolderSnapshotClient.cs:51-141 | Snapshots are emitted in last-write order. |
| SnapshotSource.PollBounds | FaceRecoTrackService/Infrastructure/External/FtpFolderSnapshotClient.cs:30-146 | A poll emits at most 20 snapshots, in last-write order and from the batch only. Afterwards the fingerprint keys lie within the batch. A missing folder changes nothing and emits nothing. |
| SnapshotSource.UnchangedNotEmitted | FaceRecoTrackService/Infrastructure/External/FtpFolderSnapshotClient.cs:97-102 | A file whose current fingerprint equals the stored one is not emitted, and its fingerprint stays. |
| SnapshotSource.EmittedFingerprinted | FaceRecoTrackService/Infrastructure/External/FtpFolderSnapshotClient.cs:128-140 | Every emitted file leaves its current (lastWriteUtc, length) as its fingerprint. |
| SnapshotSource.SecondPollSkipsUnchanged | FaceRecoTrackService/Infrastructure/External/FtpFolderSnapshotClient.cs:97-143 | A file emitted by one poll and unchanged at the next poll is not emitted again. |
| SnapshotSource.FolderSnapshotClient.constructor | FaceRecoTrackService/Infrastructure/External/FtpFolderSnapshotClient.cs:27-28 | The fingerprint dictionary starts empty. |
| SnapshotSource.FolderSnapshotClient.FetchNewSnapshots | FaceRecoTrackService/Infrastructure/External/FtpFolderSnapshotClient.cs:30-146 | Returns the poll's snapshots and leaves the poll's pruned fingerprints in the dictionary. |
| SnapshotSource.FolderSnapshotClient.ProcessBatch | FaceRecoTrackService/Infrastructure/External/FtpFolderSnapshotClient.cs:61-141 | The loop over the batch updates the dictionary and the results as `Run` does. |
| SnapshotSource.FolderSnapshotClient.ProcessFile | FaceRecoTrackService/Infrastructure/External/FtpFolderSnapshotClient.cs:63-140 | One file is handled as `Step` does. |
| SnapshotSource.FolderSnapshotClient.CleanupMissingFiles | FaceRecoTrackService/Infrastructure/External/FtpFolderSnapshotClient.cs:148-155 | The dictionary becomes `Prune` of itself. |
| TrackStore.ReadRecord | FaceRecoTrackService/Infrastructure/Repositories/PgTrackRepository.cs:55-66 | A null snap_location or record_camera_ip reads back as "". |
| TrackStore.ReadInsertedRow | FaceRecoTrackService/Infrastructure/Repositories/PgTrackRepository.cs:19-66 | An inserted record reads back as itself, carrying its new id. |
| TrackStore.LatestIndex | FaceRecoTrackService/Infrastructure/Repositories/PgTrackRepository.cs:39-53 | -1 iff the person has no row. Otherwise it is a row of the person with the greatest snap time, and no later row of the person has the same time. |
| TrackStore.WithEndTime | FaceRecoTrackService/Infrastructure/Repositories/PgTrackRepository.cs:69-78 | Only record_end_time of the row with the id changes; every other row and field is unchanged. |
| TrackStore.WithEndTimeKeepsLatest | FaceRecoTrackService/Infrastructure/Repositories/PgTrackRepository.cs:69-78 | Setting an end time does not move anyone's latest row. |
| TrackStore.Wrap32 | FaceRecoTrackService/Infrastructure/Repositories/PgTrackRepository.cs:104 | The 32-bit wrap-around of the offset product stays in int range and is the identity inside it. |
| TrackStore.ByTimeDescendingProps | FaceRecoTrackService/Infrastructure/Repositories/PgTrackRepository.cs:80-106 | The ordered rows are exactly the person's rows, a permutation of them, with snap time descending. |
| TrackStore.PageContents | FaceRecoTrackService/Infrastructure/Repositories/PgTrackRepository.cs:80-124 | The total is the person's row count. The page holds exactly min(pageSize, rows left after the offset) records: item i is the person's (offset+i)-th row in descending snap-time order. |
| TrackStore.PageInRange | FaceRecoTrackService/Infrastructure/Repositories/PgTrackRepository.cs:104 | When (pageNum-1)·pageSize fits in 32 bits, the query succeeds with exactly that offset. |
| TrackStore.DeleteKeepsOthers | FaceRecoTrackService/Infrastructure/Repositories/PgTrackRepository.cs:126-136 | Deleting one person's rows leaves every other person's rows, in order. |
| TrackStore.TrackTable.constructor | FaceRecoTrackService/Infrastructure/Repositories/PgSchemaInitializer.cs:94-105 | An empty table whose ids start at 1. |
| TrackStore.TrackTable.InsertTrack | FaceRecoTrackService/Infrastructure/Repositories/PgTrackRepository.cs:19-37 | Appends one row with the next id and the given fields; the other rows stay unchanged. |
| TrackStore.TrackTable.GetLatestTrack | FaceRecoTrackService/Infrastructure/Repositories/PgTrackRepository.cs:39-67 | The record of the person's latest row, or none. |
| TrackStore.TrackTable.UpdateTrackEndTime | FaceRecoTrackService/Infrastructure/Repositories/PgTrackRepository.cs:69-78 | The rows become `WithEndTime` of the old rows. |
| TrackStore.TrackTable.GetTracksByPerson | FaceRecoTrackService/Infrastructure/Repositories/PgTrackRepository.cs:80-124 | The reader loop gives the page of `PageOf`. |
| TrackStore.ReadRange | FaceRecoTrackService/Infrastructure/Repositories/PgTrackRepository.cs:100-120 | The reader loop turns the rows from lo up to hi, in order, into one record each. |
| TrackStore.TrackTable.DeleteTracksByPersonId | FaceRecoTrackService/Infrastructure/Repositories/PgTrackRepository.cs:126-136 | Removes exactly the person's rows and returns how many were removed. |
| Presence.ResolveLocation | FaceRecoTrackService/Services/TrackRecordService.cs:47-54 | The location is the mapping's room name if it is non-blank, else the room-table entry for the IP, else the fallback, else "". |
| Presence.SameCameraChangesNothing | FaceRecoTrackService/Services/TrackRecordService.cs:33-38 | If the latest record has the same snap camera IP, ignoring case, the table is unchanged. |
| Presence.CloseLatestMeaning | FaceRecoTrackService/Services/TrackRecordService.cs:40-43 | Closing sets the end time of the person's latest row only, and keeps the table valid. |
| Presence.CloseTouchesOnlyLatest | FaceRecoTrackService/Services/TrackRecordService.cs:42 | Updating by the latest row's id changes that row alone. |
| Presence.HandleTrackMeaning | FaceRecoTrackService/Services/TrackRecordService.cs:40-68 | On another camera the latest row is closed at the snap time, then exactly one open row is inserted. It has the next id and snap time = start time, its snap IP is the given one, its record IP is the mapping's (else the snap IP), its location is resolved, and it is stamped with the clock. A failing mapping lookup leaves the close done and inserts nothing. |
| Presence.HandleTrackKeepsOpenAtLatest | FaceRecoTrackService/Services/TrackRecordService.cs:33-68 | If sightings arrive in time order, only a person's latest row can be open. |
| Presence.OutOfOrderSightingLeavesStrayOpenSegment | FaceRecoTrackService/Services/TrackRecordService.cs:33-68 | An earlier-timed sighting at another camera followed by a return to the first camera leaves two open rows for one person. |
| Presence.MappingLookupAsWritten | FaceRecoTrackService/Infrastructure/Repositories/PgCameraMappingRepository.cs:17-36 | Against the new camera_mapping table the lookup always fails. |
| Presence.AsWrittenLookupNeverRecords | FaceRecoTrackService/Infrastructure/Repositories/PgCameraMappingRepository.cs:19-21 | With that lookup no sighting ever inserts a record. |
| Presence.FirstBound | FaceRecoTrackService/Infrastructure/Repositories/PgSchemaInitializer.cs:146-150 | The lookup through the bindings never fails. It finds a mapping iff some binding joins a face camera with that IP, and then gives that binding's record IP and location. |
| Presence.BoundLookupRecordsBoundCamera | FaceRecoTrackService/Services/TrackRecordService.cs:45-68 | With that lookup, a sighting at a bound face camera on a new camera inserts one row. Its record IP and, when non-blank, its location come from one of that camera's bindings. |
| Presence.BoundMappingNamesBinding | FaceRecoTrackService/Services/TrackRecordService.cs:45-47 | The lookup at a bound face camera names one of its bindings. |
| Presence.TrackRecordService.constructor | FaceRecoTrackService/Services/TrackRecordService.cs:1-25 | Holds the track table and the room table it is given. |
| Presence.TrackRecordService.HandleTrack | FaceRecoTrackService/Services/TrackRecordService.cs:26-69 | Changes the track table as `HandleTrackOutcome` says and keeps it valid. |
| CameraTables.FindIndex | FaceRecoTrackService/Infrastructure/Repositories/PgFaceCameraRepository.cs:35-57 | The first row matching the id or IP, or -1 iff none matches. |
| CameraTables.SelectorMatchesAtMostOne | FaceRecoTrackService/Infrastructure/Repositories/PgSchemaInitializer.cs:79-84 | Since ids and IPs are unique, an id or an IP selects at most one row. |
| CameraTables.FindMeaning | FaceRecoTrackService/Infrastructure/Repositories/PgFaceCameraRepository.cs:35-57 | A lookup gives a row iff that row matches. |
| CameraTables.AddMeaning | FaceRecoTrackService/Infrastructure/Repositories/PgFaceCameraRepository.cs:18-33 | Add succeeds iff no row has the IP. The new row has the IP, the info and a fresh id, and is appended; on failure nothing changes. Bindings are untouched and the tables stay valid. |
| CameraTables.AddThenFind | FaceRecoTrackService/Infrastructure/Repositories/PgFaceCameraRepository.cs:18-57 | An added row is found again by its id and by its IP. |
| CameraTables.AppendRecordKeepsValid | FaceRecoTrackService/Infrastructure/Repositories/PgSchemaInitializer.cs:87-92 | A record camera with a location and a new IP keeps the tables valid. |
| CameraTables.UpdateWhere | FaceRecoTrackService/Infrastructure/Repositories/PgFaceCameraRepository.cs:72-102 | Only matching rows change, and only in their non-null fields. |
| CameraTables.UpdateNothingIsTrue | FaceRecoTrackService/Infrastructure/Repositories/PgFaceCameraRepository.cs:74 | An update with both new fields null returns true and changes nothing, even for an unknown row. |
| CameraTables.UpdateMeaning | FaceRecoTrackService/Infrastructure/Repositories/PgFaceCameraRepository.cs:72-102 | An update returns whether any row matched. It changes only the given fields of matching rows and keeps ids, creation times and bindings. An IP clash fails and changes nothing. |
| CameraTables.DeleteMeaning | FaceRecoTrackService/Infrastructure/Repositories/PgFaceCameraRepository.cs:104-122 | Delete returns whether a row matched. It removes exactly the matching rows and the bindings that referenced them, and leaves the other kind's table alone. |
| CameraTables.DeleteKeepsValid | FaceRecoTrackService/Infrastructure/Repositories/PgSchemaInitializer.cs:146-150 | Deleting with the cascade keeps the tables valid. |
| CameraTables.DeleteResolves | FaceRecoTrackService/Infrastructure/Repositories/PgSchemaInitializer.cs:148-149 | After a delete with the cascade, every binding still refers to existing cameras of both kinds. |
| CameraTables.BindMeaning | FaceRecoTrackService/Services/CameraService.cs:75 | Binding succeeds iff both cameras exist. It appends a binding with a fresh id; cameras are unchanged. |
| CameraTables.UnbindMeaning | FaceRecoTrackService/Services/CameraService.cs:105 | Unbinding removes exactly the binding with that id and reports whether one existed. |
| CameraTables.RepointMeaning | FaceRecoTrackService/Services/CameraService.cs:113 | Repointing succeeds iff the binding and the record camera exist, and changes only that binding's record camera. |
| CameraTables.JoinedListsEveryBinding | FaceRecoTrackService/Services/CameraService.cs:79-94 | In valid tables the joined listing has one item per binding, in order, holding both cameras of the binding. |
| CameraTables.CameraDatabase.constructor | FaceRecoTrackService/Infrastructure/Repositories/PgSchemaInitializer.cs:79-92 | Empty, valid tables. |
| CameraTables.CameraDatabase.Add | FaceRecoTrackService/Infrastructure/Repositories/PgFaceCameraRepository.cs:18-33 | Changes the tables as `AddOutcome` says and keeps them valid. |
| CameraTables.CameraDatabase.Get | FaceRecoTrackService/Infrastructure/Repositories/PgFaceCameraRepository.cs:35-57 | The row `Find` gives. |
| CameraTables.CameraDatabase.ListAll | FaceRecoTrackService/Infrastructure/Repositories/PgFaceCameraRepository.cs:59-70 | All rows, in ascending id order. |
| CameraTables.CameraDatabase.Update | FaceRecoTrackService/Infrastructure/Repositories/PgFaceCameraRepository.cs:72-102 | Changes the tables as `UpdateOutcome` says and keeps them valid. |
| CameraTables.CameraDatabase.Delete | FaceRecoTrackService/Infrastructure/Repositories/PgFaceCameraRepository.cs:104-122 | Changes the tables as `DeleteOutcome` says and keeps them valid. |
| CameraTables.CameraDatabase.Bind | FaceRecoTrackService/Services/CameraService.cs:75 | Changes the bindings as `BindOutcome` says. |
| CameraTables.CameraDatabase.GetBinding | FaceRecoTrackService/Services/CameraService.cs:99 | The binding with that id, or none. |
| CameraTables.CameraDatabase.Unbind | FaceRecoTrackService/Services/CameraService.cs:105 | Changes the bindings as `UnbindOutcome` says. |
| CameraTables.CameraDatabase.Repoint | FaceRecoTrackService/Services/CameraService.cs:113 | Changes the bindings as `RepointOutcome` says. |
| CameraTables.CameraDatabase.ListBindings | FaceRecoTrackService/Services/CameraService.cs:81 | The joined listing of the bindings. |
| CameraServiceModel.AddCameraMeaning | FaceRecoTrackService/Services/CameraService.cs:27-43 | A blank IP is refused. For record cameras a blank location is refused as well. A stored row carries the trimmed IP and trimmed info, and is appended. |
| CameraServiceModel.BindCamerasMeaning | FaceRecoTrackService/Services/CameraService.cs:64-77 | An unknown face camera is refused first, then an unknown record camera. Otherwise one binding is appended. |
| CameraServiceModel.BindTwiceGivesTwoBindings | FaceRecoTrackService/Services/CameraService.cs:73-75 | Binding the same pair twice yields two bindings with distinct ids. |
| CameraServiceModel.ForceBindKeepsEarlierBinding | FaceRecoTrackService/Services/CameraService.cs:120-133 | As written, force-binding a record camera that is already bound keeps the earlier binding beside the new one, so the record camera is bound twice. |
| CameraServiceModel.ForceBindIntendedMeaning | FaceRecoTrackService/Services/CameraService.cs:119 | Corrected force-bind: succeeds iff both cameras exist. The new binding is then the record camera's only one, every other binding (the face camera's other bindings included) stays, and nothing else is added. |
| CameraServiceModel.ForceBindKeepsRecordBoundOnce | FaceRecoTrackService/Services/CameraService.cs:119 | The corrected force-bind keeps every record camera bound at most once. |
| CameraServiceModel.BindIntendedKeepsRecordBoundOnce | FaceRecoTrackService/Services/CameraService.cs:63 | Corrected bind: an already bound record camera is refused, otherwise it binds iff both cameras exist, and every record camera stays bound at most once. |
| CameraServiceModel.UpdateBindingMeaning | FaceRecoTrackService/Services/CameraService.cs:97-117 | An unknown mapping is refused. Unbind wins and removes the binding. Otherwise a new record camera must exist, and the binding is repointed to it. Neither field set returns false and changes nothing. |
| CameraServiceModel.DeleteCameraMeaning | FaceRecoTrackService/Services/CameraService.cs:135-151 | Neither id nor IP is refused. The id wins over the IP, and the IP is trimmed. The result says whether a row was removed, and only the addressed row goes. |
| CameraServiceModel.DeleteCameraCascades | FaceRecoTrackService/Infrastructure/Repositories/PgSchemaInitializer.cs:148-149 | Deleting a camera by id removes exactly the bindings that referenced it. |
| CameraServiceModel.UpdateCameraMeaning | FaceRecoTrackService/Services/CameraService.cs:153-189 | Neither id nor IP is refused. An unknown camera gives null and changes nothing. A found camera is returned as the addressed row with the trimmed new fields. |
| CameraServiceModel.UpdateFoundReadsBack | FaceRecoTrackService/Services/CameraService.cs:160-169 | Reading back after a successful update gives the updated row. |
| CameraServiceModel.CameraService.constructor | FaceRecoTrackService/Services/CameraService.cs:1-26 | Holds the camera database it is given. |
| CameraServiceModel.CameraService.AddCamera | FaceRecoTrackService/Services/CameraService.cs:27-43 | Changes the tables as `AddCameraOutcome` says and keeps them valid. |
| CameraServiceModel.CameraService.ListCameras | FaceRecoTrackService/Services/CameraService.cs:45-61 | All cameras of the kind, in ascending id order. |
| CameraServiceModel.CameraService.BindCameras | FaceRecoTrackService/Services/CameraService.cs:64-77 | Changes the tables as `BindCamerasOutcome` says. |
| CameraServiceModel.CameraService.ForceBindCameras | FaceRecoTrackService/Services/CameraService.cs:120-133 | Has exactly the effect of `BindCameras`; no existing binding is removed. |
| CameraServiceModel.CameraService.ListBindings | FaceRecoTrackService/Services/CameraService.cs:79-94 | The joined listing of all bindings. |
| CameraServiceModel.CameraService.UpdateBinding | FaceRecoTrackService/Services/CameraService.cs:97-117 | Changes the tables as `UpdateBindingOutcome` says. |
| CameraServiceModel.CameraService.DeleteCamera | FaceRecoTrackService/Services/CameraService.cs:135-151 | Changes the tables as `DeleteCameraOutcome` says. |
| CameraServiceModel.CameraService.UpdateCamera | FaceRecoTrackService/Services/CameraService.cs:153-189 | Changes the tables as `UpdateCameraOutcome` says. |
| FaceFeatures.Resized | FaceRecoTrackService/Core/Algorithms/FaceFeatureService.cs:279-288 | A target ≤ 0 or the current length leaves the vector as it is. Otherwise the result has the target length, copies the common prefix and pads with zeros. |
| FaceFeatures.ResizeIdempotent | FaceRecoTrackService/Core/Algorithms/FaceFeatureService.cs:282-287 | Resizing twice to the same size equals resizing once. |
| FaceFeatures.ShrinkThenGrow | FaceRecoTrackService/Core/Algorithms/FaceFeatureService.cs:284-286 | Shrinking then growing keeps the prefix and zero-fills the rest. |
| FaceFeatures.ResizeVector | FaceRecoTrackService/Core/Algorithms/FaceFeatureService.cs:279-288 | A null array is refused. Otherwise the contents are `Resized`; the same array comes back when nothing changes, else a fresh one. |
| FaceFeatures.CalculateSimilarity | FaceRecoTrackService/Core/Algorithms/FaceFeatureService.cs:147-150 | Refused iff an input is null or the lengths differ; otherwise the score oracle's value. |
| Matching.Scan | FaceRecoTrackService/Services/FtpRecognitionWorker.cs:194-209 | The scan ends at the first eligible candidate with the maximum score above float.MinValue. Empty or mismatched vectors are never eligible. With no such candidate it keeps float.MinValue and no index. |
| Matching.FirstBestIsUnique | FaceRecoTrackService/Services/FtpRecognitionWorker.cs:194-209 | That outcome is unique. |
| Matching.BestId | FaceRecoTrackService/Services/FtpRecognitionWorker.cs:195-207 | The chosen candidate's id, or Guid.Empty when none was chosen. |
| Matching.ScanCandidates | FaceRecoTrackService/Services/FtpRecognitionWorker.cs:194-209 | The loop with strict `>` ends in the state `Scan` describes. |
| Matching.ScanTakesChosen | FaceRecoTrackService/Services/FtpRecognitionWorker.cs:194-209 | The scan picks index k iff k is the first strict maximum among eligible candidates, and reports its score. |
| RecognitionWorker.LowerThreshold | FaceRecoTrackService/Services/FtpRecognitionWorker.cs:211-217 | The two acceptance tests together equal one test against the smaller threshold. |
| RecognitionWorker.WorkerMatchMeaning | FaceRecoTrackService/Services/FtpRecognitionWorker.cs:171-217 | No candidates means no match. Otherwise, after resizing the query, the worker matches iff the first best candidate has a non-empty id and a score at or above the smaller threshold; the match carries that id and score. |
| RecognitionWorker.DeleteFromMeaning | FaceRecoTrackService/Services/FtpRecognitionWorker.cs:225-240 | From attempt i: at most 3 attempts. It stops at the first attempt that does not throw, and gives up only when all 3 throw. |
| RecognitionWorker.DeleteRunMeaning | FaceRecoTrackService/Services/FtpRecognitionWorker.cs:220-241 | A blank path makes no attempt. Otherwise at most 3 attempts, with removal or absence reported by the last one. |
| RecognitionWorker.Matches | FaceRecoTrackService/Services/FtpRecognitionWorker.cs:150-154 | At most one matched person per valid face. |
| RecognitionWorker.HandleTrackKeepsValid | FaceRecoTrackService/Services/TrackRecordService.cs:26-69 | Every presence transition keeps the track table valid. |
| RecognitionWorker.TrackFacesMeaning | FaceRecoTrackService/Services/FtpRecognitionWorker.cs:150-162 | Each matched face causes one track call with the snapshot's IP, time and location. Without a failure the tracked persons are exactly the matches in order. A failure comes only from the mapping lookup and stops the loop. |
| RecognitionWorker.TrackFailureStops | FaceRecoTrackService/Services/FtpRecognitionWorker.cs:150-162 | Once a track call fails, later faces change nothing. |
| RecognitionWorker.ProcessMeaning | FaceRecoTrackService/Services/FtpRecognitionWorker.cs:123-169 | An unreadable snapshot, or fewer than MinFaceCount detections, is skipped with no track call and no deletion. Otherwise each match is tracked, and deletion is attempted iff DeleteProcessedSnapshots, whatever matched. The run aborts only on a failed lookup. |
| RecognitionWorker.FtpRecognitionWorker.constructor | FaceRecoTrackService/Services/FtpRecognitionWorker.cs:1-60 | Holds the options, vector size and track service it is given. |
| RecognitionWorker.FtpRecognitionWorker.MatchFace | FaceRecoTrackService/Services/FtpRecognitionWorker.cs:171-218 | The resize, the scan loop and the two-tier acceptance give `WorkerMatch`. |
| RecognitionWorker.FtpRecognitionWorker.TryDeleteSnapshotFile | FaceRecoTrackService/Services/FtpRecognitionWorker.cs:220-241 | The retry loop gives `DeleteRun`. |
| RecognitionWorker.FtpRecognitionWorker.TrackValidFaces | FaceRecoTrackService/Services/FtpRecognitionWorker.cs:150-162 | The loop over the valid faces changes the track table as `TrackFaces` says. |
| RecognitionWorker.FtpRecognitionWorker.ProcessSnapshot | FaceRecoTrackService/Services/FtpRecognitionWorker.cs:123-169 | Changes the track table and reports as `ProcessOutcome` says. |
| FaceVerification.LoadImage | FaceRecoTrackService/Core/Algorithms/ImageUtils.cs:32-42 | Empty bytes are refused. Otherwise it succeeds iff the decoder yields a picture. |
| FaceVerification.ExtractBestFace | FaceRecoTrackService/Services/FaceVerificationService.cs:134-152 | It succeeds iff a face is detected and one crop is sharp; no face gives the "no face in" error. The result is the face's embedding. |
| FaceVerification.CheckMeaning | FaceRecoTrackService/Services/FaceVerificationService.cs:74-132 | A decodable picture always gets an answer. IsFace holds iff a face is detected. IsCompliant holds iff exactly one is detected and a sharp crop survives, so IsCompliant implies IsFace. Decode errors pass through. |
| FaceVerification.CompareMeaning | FaceRecoTrackService/Services/FaceVerificationService.cs:40-72 | An answer needs a sharp face in both images. The similarity is the oracle on the two resized embeddings, and IsSamePerson holds iff it is at least SimilarityThreshold. |
| FaceVerification.ComparableAtPositiveSize | FaceRecoTrackService/Services/FaceVerificationService.cs:154-169 | With a positive configured vector size, both vectors have that length, so two extracted faces always compare. |
| FaceVerification.CompareAcceptsOnlyFaces | FaceRecoTrackService/Services/FaceVerificationService.cs:40-132 | If Compare answers, Check calls each image a face. |
| FaceVerification.CompareIsSymmetric | FaceRecoTrackService/Services/FaceVerificationService.cs:58-67 | For a symmetric score, swapping the images gives the same answer. |
| FaceVerification.BestHitIndex | FaceRecoTrackService/Services/FaceVerificationService.cs:301 | The first hit with the greatest score. |
| FaceVerification.IndexPathMeaning | FaceRecoTrackService/Services/FaceVerificationService.cs:289-316 | The index path answers iff the search succeeds with hits, the best hit reaches the threshold, its id parses as a GUID and the user lookup succeeds. The answer is that hit's person, and no hit scores higher. |
| FaceVerification.LocalPathMeaning | FaceRecoTrackService/Services/FaceVerificationService.cs:325-355 | The local path answers iff the first best eligible candidate has a non-empty id and a score at or above the primary threshold; there is no fallback threshold here. |
| FaceVerification.VerifyMatchMeaning | FaceRecoTrackService/Services/FaceVerificationService.cs:280-356 | The threshold is the caller's, else SimilarityThreshold. Any answer reaches it. When the index path gives nothing, the result is the local path's. |
| FaceVerification.LocalImpliesWorker | FaceRecoTrackService/Services/FaceVerificationService.cs:352-355 | A face the local path accepts at the configured threshold is also accepted by the worker, with the same person and score. |
| FaceVerification.FallbackOnlyInWorker | FaceRecoTrackService/Services/FaceVerificationService.cs:352-355 | The converse fails: a score between the two thresholds is a worker match and not a local one. |
| FaceVerification.MatchFace | FaceRecoTrackService/Services/FaceVerificationService.cs:280-356 | The two-path selection with its scan loop gives `VerifyMatch`. |
| FaceVerification.RecognizeMeaning | FaceRecoTrackService/Services/FaceVerificationService.cs:212-271 | A recognised face's similarity reaches the effective threshold, and Check calls the image a face. |
| FaceDetection.RoundHalfEven | FaceRecoTrackService/Core/Algorithms/FaceDetector.cs:376 | Math.Round: within 0.5 of the value, with ties going to the even integer. |
| FaceDetection.ClampToInt | FaceRecoTrackService/Core/Algorithms/FaceDetector.cs:372-377 | Below min gives min, above max gives max, otherwise the rounded value; so it lies in [min, max] when min ≤ max. |
| FaceDetection.CropFace | FaceRecoTrackService/Core/Algorithms/FaceDetector.cs:158-183 | x and y are the box corner less the margin, floored at 0. Right and bottom never pass the image. The valid size is right−x by bottom−y. |
| FaceDetection.CropInsideIsWidenedBox | FaceRecoTrackService/Core/Algorithms/FaceDetector.cs:165-173 | A box with room for the margin is widened by it on every side. |
| FaceDetection.CropBeyondEdgeIsEmpty | FaceRecoTrackService/Core/Algorithms/FaceDetector.cs:174-179 | A box right of the image gives a non-positive width, which is logged and not rejected. |
| FaceDetection.SharpFacesMeaning | FaceRecoTrackService/Core/Algorithms/FaceDetector.cs:79-105 | The keys lie in [0, count). Key i is present iff crop i exists and is sharp, and then holds that crop. |
| FaceDetection.CropAndFilterSharpFaces | FaceRecoTrackService/Core/Algorithms/FaceDetector.cs:79-105 | The loop builds exactly `SharpFaces`. |
| FaceDetection.CropAndFilterSharpFacesWithStats | FaceRecoTrackService/Core/Algorithms/FaceDetector.cs:110-153 | Same keys as the plain overload. The evaluated count is the number of crops that exist. The maximum sharpness is ≥ 0 and bounds every evaluated crop; when positive, it and its threshold come from one evaluated crop. |
| FaceDetection.NmsKept | FaceRecoTrackService/Core/Algorithms/FaceDetector.cs:238-242 | Only input detections are kept, at most one per index. |
| FaceDetection.NmsKeptPicksInRange | FaceRecoTrackService/Core/Algorithms/FaceDetector.cs:238-242 | The kept detections are those at the in-range indices, in NMS order. |
| FaceDetection.ApplyNms | FaceRecoTrackService/Core/Algorithms/FaceDetector.cs:211-245 | Null gives an empty list and an empty input comes back as is. Otherwise the NMS oracle is asked with the threshold floored at 0, and no answer gives an empty list. |
| FaceDetection.LayoutOf | FaceRecoTrackService/Core/Algorithms/FaceDetector.cs:272-276 | attrs = min(dim1, dim2) and boxes = max; channels first iff dim1 < dim2. |
| FaceDetection.FieldIndexInRange | FaceRecoTrackService/Core/Algorithms/FaceDetector.cs:280-284 | Field k of box i is read inside boxes·attrs. |
| FaceDetection.FieldIndexInjective | FaceRecoTrackService/Core/Algorithms/FaceDetector.cs:280-284 | Different fields or boxes are read at different indices. |
| FaceDetection.MaxClass | FaceRecoTrackService/Core/Algorithms/FaceDetector.cs:331-337 | The running maximum starts at 0 and bounds every class score seen. |
| FaceDetection.ScoreBounds | FaceRecoTrackService/Core/Algorithms/FaceDetector.cs:320-342 | With attrs ≤ 5 the score is obj. Otherwise it is at least obj, at least 0 and at least every class score. |
| FaceDetection.MaxClassScore | FaceRecoTrackService/Core/Algorithms/FaceDetector.cs:331-337 | The class loop gives `MaxClass`. |
| FaceDetection.ComputeScore | FaceRecoTrackService/Core/Algorithms/FaceDetector.cs:320-342 | The method gives `Score`. |
| FaceDetection.AddBox | FaceRecoTrackService/Core/Algorithms/FaceDetector.cs:344-370 | The box keeps the score, and on a non-empty image it is non-empty and lies inside the image. |
| FaceDetection.BoxesUpTo | FaceRecoTrackService/Core/Algorithms/FaceDetector.cs:278-291 | At most one detection per box. Each reaches the threshold and, on a non-empty image, lies inside it. |
| FaceDetection.ParseMeaning | FaceRecoTrackService/Core/Algorithms/FaceDetector.cs:247-318 | A parse that answers has at most one detection per box, each reaching the threshold and inside the image. |
| FaceDetection.ExactTensorParses | FaceRecoTrackService/Core/Algorithms/FaceDetector.cs:270-318 | Data of exactly boxes·attrs values, with at least 5 attributes, never reads out of range. |
| FaceDetection.ReadBox | FaceRecoTrackService/Core/Algorithms/FaceDetector.cs:280-290 | One box gives its detection iff its score reaches the threshold. |
| FaceDetection.ParseDetections | FaceRecoTrackService/Core/Algorithms/FaceDetector.cs:247-318 | The loop gives `ParseOutcome`: nothing for empty data or an unusable shape, an error for a read past the data, otherwise the boxes reaching the threshold. |
| Base64Image.DecodeImage | FaceRecoTrackService/Utils/Base64Helper.cs:7-25 | Refused as blank iff the input is null or white space. Any other failure is a format error, and it succeeds iff the trimmed, de-prefixed text decodes. |
| Base64Image.Payload | FaceRecoTrackService/Utils/Base64Helper.cs:13-15 | For a data URL with a comma, the text after the first comma. Text not starting with "data:image" is kept whole. |
| Base64Image.Unspaced | FaceRecoTrackService/Utils/Base64Helper.cs:19 | Exactly the characters the decoder does not skip survive. |
| Base64Image.DecodeEncode | FaceRecoTrackService/Utils/Base64Helper.cs:19 | Decoding the standard encoding of any bytes gives them back. |
| Base64Image.DecodeImageRoundTrip | FaceRecoTrackService/Utils/Base64Helper.cs:9-24 | DecodeImage of the standard encoding of non-empty bytes gives the bytes. |
| Base64Image.DataUrlPayload | FaceRecoTrackService/Utils/Base64Helper.cs:12-15 | Behind a data-URL header of any subtype, the payload is exactly the encoded text. |
| Base64Image.DataUrlRoundTrip | FaceRecoTrackService/Utils/Base64Helper.cs:12-19 | With a `data:image/…;base64,` header, DecodeImage still gives the bytes. |
| Base64Image.CommaWithoutDataUrlIsRejected | FaceRecoTrackService/Utils/Base64Helper.cs:14-23 | Text not starting with "data:image" is decoded whole, so a comma makes it a format error. |
| Base64Image.EncodedIsNoDataUrl | FaceRecoTrackService/Utils/Base64Helper.cs:14 | Encoded text never looks like a data URL. |
| VectorCollections.ValidateNameAsWritten | FaceRecoTrackService/Utils/QdrantUtil/QDrantController.cs:260-267 | Accepts exactly the names the .NET pattern matches, a trailing "\n" included. A blank name gets the blank error and any other refused name the bad-name error. |
| VectorCollections.TrailingLineFeedAccepted | FaceRecoTrackService/Utils/QdrantUtil/QDrantController.cs:265 | "face_collection\n" is accepted though it is not all letters, digits and '_'. |
| VectorCollections.ValidateName | FaceRecoTrackService/Utils/QdrantUtil/QDrantController.cs:260-267 | Accepts iff the name is non-empty and all letters, digits and '_'. A blank name is the blank error, and anything else refused is the bad-name error. |
| VectorCollections.ValidateNameDiffers | FaceRecoTrackService/Utils/QdrantUtil/QDrantController.cs:265 | The two differ on exactly the valid names followed by one "\n". |
| VectorCollections.ValidateNameAgreesElsewhere | FaceRecoTrackService/Utils/QdrantUtil/QDrantController.cs:260-267 | On every name other than a valid name followed by one "\n", the corrected check gives the same result as the source's. |
| VectorCollections.CreateMeaning | FaceRecoTrackService/Utils/QdrantUtil/QDrantController.cs:33-57 | A bad name or size ≤ 0 is refused. An existing collection gives false and no change; otherwise the collection is created and true is returned. |
| VectorCollections.EnsureMeaning | FaceRecoTrackService/Utils/QdrantUtil/QDrantController.cs:59-100 | An absent collection is created (true). A known different size is recreated (true) under recreateOnMismatch, else refused as a mismatch. A matching or unknown size gives false and no change. |
| VectorCollections.EnsureIsIdempotent | FaceRecoTrackService/Utils/QdrantUtil/QDrantController.cs:59-100 | Ensuring again right after a success gives false and changes nothing. |
| VectorCollections.ExistsOutcome | FaceRecoTrackService/Utils/QdrantUtil/QDrantController.cs:102-108 | Refused iff the name is invalid; otherwise whether the collection exists. |
| VectorCollections.PointsCount | FaceRecoTrackService/Utils/QdrantUtil/QDrantController.cs:240-257 | 0 for an absent collection. Otherwise the point count when it fits in a long, always in [0, long.MaxValue]. |
| VectorCollections.SearchCheck | FaceRecoTrackService/Utils/QdrantUtil/QDrantController.cs:212-222 | After the name check, an empty vector is refused, then a limit ≤ 0. |
| VectorCollections.DeletePointsCheck | FaceRecoTrackService/Utils/QdrantUtil/QDrantController.cs:173-181 | After the name check, a missing or empty id list is refused. |
| VectorCollections.VectorManager.constructor | FaceRecoTrackService/Utils/QdrantUtil/QDrantController.cs:20-31 | Starts from the given collections. |
| VectorCollections.VectorManager.CreateCollection | FaceRecoTrackService/Utils/QdrantUtil/QDrantController.cs:33-57 | Changes the collections as `CreateOutcome` says. |
| VectorCollections.VectorManager.EnsureCollection | FaceRecoTrackService/Utils/QdrantUtil/QDrantController.cs:59-100 | Changes the collections as `EnsureOutcome` says. |
| VectorCollections.VectorManager.Exists | FaceRecoTrackService/Utils/QdrantUtil/QDrantController.cs:102-108 | Answers `ExistsOutcome`. |
| VectorCollections.VectorManager.GetCollectionPointsCount | FaceRecoTrackService/Utils/QdrantUtil/QDrantController.cs:240-257 | Answers `PointsCount`. |

## Left out

- The producer/worker pool of `FtpRecognitionWorker` (`ExecuteAsync`, `WorkerLoopAsync`, the bounded channel, cancellation) is concurrency. The model processes one snapshot at a time.
- Face detection, embedding, sharpness, image decoding and PNG encoding (ONNX, OpenCV, SkiaSharp) are native calls. They are oracles: an analysis of the bytes, an NMS function, a sharpness predicate, a crop predicate.
- Floating-point numerics are left out: cosine similarity and `NormalizeVector`, `GetDynamicThreshold`, and the float arithmetic of `AddBox` and of the `ComputeScore` product. Scores and coordinates are exact reals, and similarity is an abstract function.
- `DateTime.TryParseExact`, `ToUniversalTime`, `File.GetCreationTimeUtc`, the clock and every file-system probe are parameters. Times are integer ticks.
- `PgSchemaInitializer`'s DDL and migration and `PgDbContext` are left out. Only the UNIQUE camera IPs, the NOT NULL location and the ON DELETE CASCADE of bindings are kept, as table invariants.
- The binding-store methods `CameraService` calls (`BindAsync`, `ListBindingsAsync`, `GetBindingByMappingIdAsync`, `UnbindByMappingIdAsync`, `UpdateRecordCameraIdAsync`) are not in the repository's source. They are specified abstractly on the binding table, with the join that the listing needs.
- `PgFaceRepository`, `FaceRegistrationService`, `FaceDeletionService`, `FaceQueryService` and `TrackQueryService` only orchestrate calls. The registered faces enter as a candidate list, with no exceptions from `GetAllFaceVectorsAsync`.
- `QdrantEmbeddedBootstrapper` and `TryGetVectorSize` (reflection) are left out. The vector index is a map from collection names to their known size and point count, and its search is an oracle that answers hits or fails.
- Controllers, DTOs, `ApiResponse`, `ErrorCodes`, `Program.cs` and `PerformanceMonitor` are left out. So are the `Unbind*` methods the controllers call, which are not in `CameraService.cs`.
- Exceptions are result values named in English; the service's Chinese messages are not reproduced.
- OrdinalIgnoreCase comparison folds ASCII letters only.
- Paths are separated by '/' and '\\' alike. Other platform rules of `Path.GetFileNameWithoutExtension` are not modelled.
- The returned face images and their base64 text (`FaceImageBase64`, `CroppedFaceBase64`) are not modelled. Nor is the failure of `ExtractVector`'s PNG encoding.
- One clock reading serves a whole snapshot in `ProcessSnapshot`. In the service each insert reads the clock itself.
- The crops of a snapshot are taken in ascending key order of the face dictionary.
- TrackStore.TrackTable.GetLatestTrack: when several rows of a person share the greatest snap time, the model picks the last inserted. The SQL leaves that choice open.
- TrackStore.TrackTable.InsertTrack: a failed insert that uses up a sequence value is not modelled. Ids advance only on success.
- FaceDetection.CropFace: 32-bit overflow of `width + 2 * expand` and of `x + width` is not modelled. Integers are unbounded there.
- FaceDetection.AddBox: only the bounds of the box are stated, because the scaling is floating point.
- CameraTables.CameraDatabase.Add: requires a location for record cameras. The database's NOT NULL rejection is not modelled, because `CameraService` refuses a blank location before it calls the repository.
- Base64Image.DecodeImage: `Convert.FromBase64String` is approximated. Space, tab, CR and LF are skipped anywhere, and the padding rules are those of section 4 of RFC 4648.
- SnapshotSource.ParseMetaFromFileName: the capture time is stated exactly only for 14- and 17-digit stamps. Longer or other stamps follow the same code path and have no lemma of their own.
- VectorCollections.CreateMeaning: uses the corrected name check. A valid name followed by one "\n", which the source passes on to the client, is refused here. On every other name the checks agree (`ValidateNameAgreesElsewhere`).
- VectorCollections.EnsureMeaning: the same corrected name check, with the same single difference.
- VectorCollections.ExistsOutcome: the same corrected name check, with the same single difference.
- VectorCollections.PointsCount: the same corrected name check, with the same single difference.
- VectorCollections.SearchCheck: the same corrected name check, with the same single difference.
- VectorCollections.DeletePointsCheck: the same corrected name check, with the same single difference.
- VectorCollections.VectorManager.CreateCollection: follows `CreateOutcome`, so the same corrected name check.
- VectorCollections.VectorManager.EnsureCollection: follows `EnsureOutcome`, so the same corrected name check.
- VectorCollections.VectorManager.Exists: follows `ExistsOutcome`, so the same corrected name check.
- VectorCollections.VectorManager.GetCollectionPointsCount: follows `PointsCount`, so the same corrected name check.
- RecognitionWorker.ProcessMeaning: the face analysis, the embedding and the track table are total here. An exception from `Encode` or `ExtractFeaturesFromStream` (FtpRecognitionWorker.cs:177-180), or a database failure inside `HandleTrackAsync` other than the mapping lookup, would also end the snapshot early in the service. So "aborts only on a failed lookup" holds of the model only.
- Presence.ResolveLocation: the room table (`CameraRoomConfig`) is not in the repository's source. It is a map with exact-key lookup.
- TrackStore.ByTimeDescendingProps: `ORDER BY snap_time DESC` leaves the order among equal snap times open. The model keeps insertion order there.

## Findings

| source | as written | input that shows it | evidently intended | confidence | as-written member | corrected member |
|---|---|---|---|---|---|---|
| FaceRecoTrackService/Infrastructure/Repositories/PgCameraMappingRepository.cs:19-21 | The lookup selects `snap_camera_ip, record_camera_ip, room_name`. The camera_mapping table the schema creates (PgSchemaInitializer.cs:146-150) holds only `id, face_camera_id, record_camera_id`, so every lookup throws. `HandleTrackAsync` has then closed the latest segment, but it inserts nothing. | Any sighting at a camera other than the person's last one, e.g. person 7 last seen at 10.0.0.1 and now at 10.0.0.2. | Look the snap IP up through the bindings: face camera IP → bound record camera IP and its location name. | not executed | Presence.MappingLookupAsWritten, Presence.AsWrittenLookupNeverRecords | Presence.FirstBound, Presence.BoundLookupRecordsBoundCamera |
| FaceRecoTrackService/Utils/QdrantUtil/QDrantController.cs:265 | `^[a-zA-Z0-9_]+$` is matched with .NET's `$`, which also matches before a final "\n". A name ending in a line feed passes validation. | "face_collection\n" | Accept only letters, digits and '_' (as the error message says), e.g. with `\z` or a character check. | not executed | VectorCollections.ValidateNameAsWritten, VectorCollections.TrailingLineFeedAccepted | VectorCollections.ValidateName, VectorCollections.ValidateNameDiffers |
| FaceRecoTrackService/Services/CameraService.cs:63 | The documentation of `BindCamerasAsync` (line 63) says a record camera can be bound to only one face camera. The documentation of `ForceBindCamerasAsync` (line 119) says it first unbinds the record camera, keeping the face camera's other bindings. Both methods (lines 64-77 and 120-133) only check that the cameras exist and insert, and camera_mapping has no UNIQUE on record_camera_id (PgSchemaInitializer.cs:146-150). | Record camera 5 bound to face camera 1, then force-bound (or bound) to face camera 2: both bindings remain. | Bind refuses a bound record camera; ForceBind removes the record camera's bindings before inserting. | not executed | CameraServiceModel.ForceBindKeepsEarlierBinding, CameraServiceModel.BindTwiceGivesTwoBindings | CameraServiceModel.ForceBindIntendedMeaning, CameraServiceModel.BindIntendedKeepsRecordBoundOnce |
