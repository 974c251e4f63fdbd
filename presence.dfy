/** The presence tracker: TrackRecordService.HandleTrackAsync turns each
    recognised sighting of a person into track segments. A sighting at the
    camera of the person's latest segment is ignored; any other sighting
    closes that segment and opens a new one whose location is resolved
    from the camera mapping, the room configuration and the snapshot's own
    location, in that order. */
module Presence {
  import opened Common
  import opened TrackStore
  import CameraTables

  /** What the camera-mapping lookup gives: an exception, no row, or a row
      (a NULL room_name reads as ""). */
  datatype MappingLookup = LookupFailed(error: string) | NoMapping | Mapping(recordCameraIp: string, roomName: string)

  /** How a sighting ended: ignored as the same camera, recorded, or
      aborted by the lookup's exception after the latest segment was closed. */
  datatype TrackStatus = SameCamera | Inserted | MappingFailed(error: string)

  /** The track table as the tracker sees it. */
  datatype TrackState = TrackState(rows: seq<TrackRow>, nextId: int)

  /** The record camera: the mapping's, else the snapshot camera itself. */
  function ResolveRecordIp(mapping: MappingLookup, snapIp: string): string
  {
    if mapping.Mapping? then mapping.recordCameraIp else snapIp
  }

  /** The location precedence: a non-blank mapped room name, else the room
      configuration's entry for the camera, else the fallback, else "". */
  function ResolveLocation(mapping: MappingLookup, roomConfig: map<string, string>, snapIp: string,
                           fallback: Option<string>): (loc: string)
    ensures mapping.Mapping? && !IsBlank(mapping.roomName) ==> loc == mapping.roomName
    ensures !(mapping.Mapping? && !IsBlank(mapping.roomName)) && snapIp in roomConfig ==> loc == roomConfig[snapIp]
    ensures !(mapping.Mapping? && !IsBlank(mapping.roomName)) && snapIp !in roomConfig && fallback.Some? ==> loc == fallback.value
    ensures !(mapping.Mapping? && !IsBlank(mapping.roomName)) && snapIp !in roomConfig && fallback.None? ==> loc == ""
  {
    var named := if mapping.Mapping? then mapping.roomName else "";
    if !IsBlank(named) then named
    else if snapIp in roomConfig then roomConfig[snapIp]
    else if fallback.Some? then fallback.value
    else ""
  }

  /** The open segment a sighting starts. */
  function NewSegment(personId: Guid, snapIp: string, snapTime: int, location: string, recordIp: string, now: int): TrackRecord
  {
    TrackRecord(0, personId, snapTime, location, snapIp, recordIp, snapTime, None, now)
  }

  /** The latest segment of the person, if any, closed at time t. */
  function CloseLatest(rows: seq<TrackRow>, p: Guid, t: int): seq<TrackRow>
  {
    var latest := Latest(rows, p);
    if latest.Some? then WithEndTime(rows, latest.value.id, t) else rows
  }

  /** HandleTrackAsync on the track table. */
  function HandleTrackOutcome(s: TrackState, personId: Guid, snapIp: string, snapTime: int, fallback: Option<string>,
                              mapping: MappingLookup, roomConfig: map<string, string>, now: int): (TrackState, TrackStatus)
  {
    var latest := Latest(s.rows, personId);
    if latest.Some? && EqualsIgnoreCase(latest.value.snapCameraIp, snapIp) then (s, SameCamera)
    else
      var closed := CloseLatest(s.rows, personId, snapTime);
      if mapping.LookupFailed? then (TrackState(closed, s.nextId), MappingFailed(mapping.error))
      else
        var segment := NewSegment(personId, snapIp, snapTime, ResolveLocation(mapping, roomConfig, snapIp, fallback),
                                  ResolveRecordIp(mapping, snapIp), now);
        (TrackState(closed + [RowOf(s.nextId, segment)], s.nextId + 1), Inserted)
  }

  predicate StateValid(s: TrackState)
  {
    TableValid(s.rows, s.nextId)
  }

  /** With unique ids, closing the latest segment touches that row only,
      and keeps the table's constraints. */
  lemma CloseLatestMeaning(rows: seq<TrackRow>, nextId: int, p: Guid, t: int)
    requires TableValid(rows, nextId)
    ensures var closed := CloseLatest(rows, p, t);
      var k := LatestIndex(rows, p);
      && |closed| == |rows|
      && TableValid(closed, nextId)
      && forall i :: 0 <= i < |rows| ==> closed[i] == if i == k then rows[k].(recordEndTime := Some(t)) else rows[i]
  {
    var k := LatestIndex(rows, p);
    if k >= 0 {
      CloseTouchesOnlyLatest(rows, nextId, p, t);
    }
  }

  /** Appending a row under the counter's value keeps the table's constraints. */
  lemma AppendKeepsTableValid(rows: seq<TrackRow>, nextId: int, record: TrackRecord)
    requires TableValid(rows, nextId)
    ensures TableValid(rows + [RowOf(nextId, record)], nextId + 1)
  {
  }

  /** With unique ids, closing the latest segment touches that row only,
      and keeps the table's constraints. */
  lemma {:induction false} CloseTouchesOnlyLatest(rows: seq<TrackRow>, nextId: int, p: Guid, t: int)
    requires TableValid(rows, nextId)
    requires LatestIndex(rows, p) >= 0
    ensures var k := LatestIndex(rows, p);
      var closed := WithEndTime(rows, rows[k].id, t);
      forall i :: 0 <= i < |rows| ==> closed[i] == if i == k then rows[k].(recordEndTime := Some(t)) else rows[i]
  {
    var k := LatestIndex(rows, p);
    var closed := WithEndTime(rows, rows[k].id, t);
    forall i | 0 <= i < |rows|
      ensures closed[i] == if i == k then rows[k].(recordEndTime := Some(t)) else rows[i]
    {
      if i < k || k < i {
        assert rows[i].id != rows[k].id;
      }
    }
  }

  /** A sighting at the latest segment's camera (ignoring case) leaves the
      table as it was. */
  lemma SameCameraChangesNothing(s: TrackState, personId: Guid, snapIp: string, snapTime: int, fallback: Option<string>,
                                 mapping: MappingLookup, roomConfig: map<string, string>, now: int)
    requires Latest(s.rows, personId).Some?
    requires EqualsIgnoreCase(Latest(s.rows, personId).value.snapCameraIp, snapIp)
    ensures HandleTrackOutcome(s, personId, snapIp, snapTime, fallback, mapping, roomConfig, now) == (s, SameCamera)
  {
  }

  /** Any other sighting closes the latest segment at the snap time, changes
      no other row, and (unless the lookup fails) appends exactly one open
      segment carrying the sighting's person, camera, time, record camera
      and resolved location. */
  lemma HandleTrackMeaning(s: TrackState, personId: Guid, snapIp: string, snapTime: int, fallback: Option<string>,
                           mapping: MappingLookup, roomConfig: map<string, string>, now: int)
    requires StateValid(s)
    requires Latest(s.rows, personId).None? || !EqualsIgnoreCase(Latest(s.rows, personId).value.snapCameraIp, snapIp)
    ensures var (s2, status) := HandleTrackOutcome(s, personId, snapIp, snapTime, fallback, mapping, roomConfig, now);
      var k := LatestIndex(s.rows, personId);
      && StateValid(s2)
      && |s2.rows| == |s.rows| + (if mapping.LookupFailed? then 0 else 1)
      && (forall i :: 0 <= i < |s.rows| ==>
            s2.rows[i] == if i == k then s.rows[i].(recordEndTime := Some(snapTime)) else s.rows[i])
      && (mapping.LookupFailed? ==> status == MappingFailed(mapping.error) && s2.nextId == s.nextId)
      && (!mapping.LookupFailed? ==>
            && status == Inserted
            && var row := s2.rows[|s.rows|];
            && row.id == s.nextId && row.personId == personId
            && row.snapTime == snapTime && row.recordStartTime == snapTime && row.recordEndTime == None
            && row.snapCameraIp == snapIp
            && row.recordCameraIp == Some(ResolveRecordIp(mapping, snapIp))
            && row.snapLocation == Some(ResolveLocation(mapping, roomConfig, snapIp, fallback))
            && row.createdAt == now)
  {
    CloseLatestMeaning(s.rows, s.nextId, personId, snapTime);
    if !mapping.LookupFailed? {
      AppendKeepsTableValid(CloseLatest(s.rows, personId, snapTime), s.nextId,
        NewSegment(personId, snapIp, snapTime, ResolveLocation(mapping, roomConfig, snapIp, fallback),
                   ResolveRecordIp(mapping, snapIp), now));
    }
  }

  /** Every open segment is its person's latest one: a person has at most
      one open segment, and it is where they were last seen. */
  predicate OpenOnlyAtLatest(rows: seq<TrackRow>)
  {
    forall i :: 0 <= i < |rows| && rows[i].recordEndTime.None? ==> i == LatestIndex(rows, rows[i].personId)
  }

  /** Every earlier snap time of the person is at most t. */
  predicate SeenNoLaterThan(rows: seq<TrackRow>, p: Guid, t: int)
  {
    forall i :: 0 <= i < |rows| && rows[i].personId == p ==> rows[i].snapTime <= t
  }

  /** Appending a row of another person does not move anyone's latest row. */
  lemma AppendOtherKeepsLatest(rows: seq<TrackRow>, row: TrackRow, q: Guid)
    requires row.personId != q
    ensures LatestIndex(rows + [row], q) == LatestIndex(rows, q)
  {
    assert (rows + [row])[..|rows|] == rows;
  }

  /** Closing the person's latest segment leaves none of their segments
      open and keeps everyone else's open segment at their latest row. */
  lemma CloseKeepsOpenAtLatest(rows: seq<TrackRow>, nextId: int, p: Guid, t: int)
    requires TableValid(rows, nextId)
    requires OpenOnlyAtLatest(rows)
    requires LatestIndex(rows, p) >= 0
    ensures var closed := WithEndTime(rows, rows[LatestIndex(rows, p)].id, t);
      && OpenOnlyAtLatest(closed)
      && forall i :: 0 <= i < |closed| && closed[i].personId == p ==> closed[i].recordEndTime.Some?
  {
    var k := LatestIndex(rows, p);
    var closed := WithEndTime(rows, rows[k].id, t);
    CloseTouchesOnlyLatest(rows, nextId, p, t);
    forall i | 0 <= i < |closed| && closed[i].recordEndTime.None?
      ensures i == LatestIndex(closed, closed[i].personId) && closed[i].personId != p
    {
      WithEndTimeKeepsLatest(rows, rows[k].id, t, rows[i].personId);
      assert i != k;
    }
  }

  /** Appending an open segment that is its person's latest, when the
      person has no other open segment, keeps every open segment latest. */
  lemma AppendLatestKeepsOpenAtLatest(rows: seq<TrackRow>, row: TrackRow)
    requires OpenOnlyAtLatest(rows)
    requires forall i :: 0 <= i < |rows| && rows[i].personId == row.personId ==>
      rows[i].recordEndTime.Some? && rows[i].snapTime <= row.snapTime
    ensures OpenOnlyAtLatest(rows + [row])
  {
    var rows2 := rows + [row];
    assert rows2[..|rows|] == rows;
    forall i | 0 <= i < |rows2| && rows2[i].recordEndTime.None?
      ensures i == LatestIndex(rows2, rows2[i].personId)
    {
      if i < |rows| {
        assert rows2[i] == rows[i];
        AppendOtherKeepsLatest(rows, row, rows[i].personId);
      }
    }
  }

  /** When sightings of a person arrive in time order, handling one keeps
      every person's open segment at their latest row. */
  lemma HandleTrackKeepsOpenAtLatest(s: TrackState, personId: Guid, snapIp: string, snapTime: int, fallback: Option<string>,
                                     mapping: MappingLookup, roomConfig: map<string, string>, now: int)
    requires StateValid(s)
    requires OpenOnlyAtLatest(s.rows)
    requires SeenNoLaterThan(s.rows, personId, snapTime)
    ensures OpenOnlyAtLatest(HandleTrackOutcome(s, personId, snapIp, snapTime, fallback, mapping, roomConfig, now).0.rows)
  {
    var latest := Latest(s.rows, personId);
    if !(latest.Some? && EqualsIgnoreCase(latest.value.snapCameraIp, snapIp)) {
      var k := LatestIndex(s.rows, personId);
      var closed := CloseLatest(s.rows, personId, snapTime);
      if k >= 0 {
        CloseKeepsOpenAtLatest(s.rows, s.nextId, personId, snapTime);
      }
      if !mapping.LookupFailed? {
        var segment := NewSegment(personId, snapIp, snapTime, ResolveLocation(mapping, roomConfig, snapIp, fallback),
                                  ResolveRecordIp(mapping, snapIp), now);
        forall i | 0 <= i < |closed| && closed[i].personId == personId
          ensures closed[i].recordEndTime.Some? && closed[i].snapTime <= snapTime
        {
          assert closed[i].snapTime == s.rows[i].snapTime;
        }
        AppendLatestKeepsOpenAtLatest(closed, RowOf(s.nextId, segment));
      }
    }
  }

  /** A sighting that arrives after a later one has been recorded closes the
      later segment before it started and opens a segment that is not the
      person's latest, so that segment stays open when the person is next
      seen at the later camera. */
  lemma OutOfOrderSightingLeavesStrayOpenSegment()
    ensures var p := Guid(7);
      var s := TrackState([TrackRow(1, p, 10, Some("A"), "10.0.0.1", Some("10.0.0.1"), 10, None, 0)], 2);
      var (s2, _) := HandleTrackOutcome(s, p, "10.0.0.2", 5, None, NoMapping, map[], 0);
      var (s3, st3) := HandleTrackOutcome(s2, p, "10.0.0.1", 11, None, NoMapping, map[], 0);
      && s2.rows[0].recordEndTime == Some(5) && s2.rows[0].recordStartTime == 10
      && st3 == SameCamera
      && s3.rows[1].recordEndTime.None?
      && !OpenOnlyAtLatest(s3.rows)
  {
    var p := Guid(7);
    var s := TrackState([TrackRow(1, p, 10, Some("A"), "10.0.0.1", Some("10.0.0.1"), 10, None, 0)], 2);
    assert LatestIndex(s.rows, p) == 0;
    var (s2, _) := HandleTrackOutcome(s, p, "10.0.0.2", 5, None, NoMapping, map[], 0);
    assert Fold("10.0.0.1")[7] == '1' && Fold("10.0.0.2")[7] == '2';
    assert LatestIndex(s2.rows[..1], p) == 0;
    assert LatestIndex(s2.rows, p) == 0;
  }

  // ------------------------------------------------------------ the mapping lookup

  const UndefinedColumn := "PostgresException 42703: column \"snap_camera_ip\" does not exist"

  /** GetMappingAsync as written: it selects snap_camera_ip, record_camera_ip
      and room_name from camera_mapping, but once the schema initializer has
      run, camera_mapping holds only id, face_camera_id and record_camera_id,
      so the statement is rejected whatever the tables hold. */
  function MappingLookupAsWritten(t: CameraTables.Tables, snapIp: string): (m: MappingLookup)
    ensures m.LookupFailed?
  {
    LookupFailed(UndefinedColumn)
  }

  /** As written, a sighting at a new camera closes the person's latest
      segment and records nothing: the track table never gains a row. */
  lemma AsWrittenLookupNeverRecords(s: TrackState, t: CameraTables.Tables, personId: Guid, snapIp: string, snapTime: int,
                                    fallback: Option<string>, roomConfig: map<string, string>, now: int)
    requires StateValid(s)
    ensures var (s2, status) := HandleTrackOutcome(s, personId, snapIp, snapTime, fallback,
                                                   MappingLookupAsWritten(t, snapIp), roomConfig, now);
      |s2.rows| == |s.rows| && status != Inserted
  {
    if !(Latest(s.rows, personId).Some? && EqualsIgnoreCase(Latest(s.rows, personId).value.snapCameraIp, snapIp)) {
      HandleTrackMeaning(s, personId, snapIp, snapTime, fallback, MappingLookupAsWritten(t, snapIp), roomConfig, now);
    }
  }

  /** The first bound record camera of the face camera with the given IP. */
  function FirstBound(items: seq<CameraTables.BoundCameraItem>, snapIp: string): (m: MappingLookup)
    ensures !m.LookupFailed?
    ensures m.Mapping? <==> exists i :: 0 <= i < |items| && items[i].faceCameraIp == snapIp
    ensures m.Mapping? ==>
      exists i :: 0 <= i < |items| && items[i].faceCameraIp == snapIp && m == Mapping(items[i].recordCameraIp, items[i].locationName)
  {
    if items == [] then NoMapping
    else if items[0].faceCameraIp == snapIp then Mapping(items[0].recordCameraIp, items[0].locationName)
    else
      var m := FirstBound(items[1..], snapIp);
      assert forall i :: 0 <= i < |items| - 1 ==> items[1..][i] == items[i + 1];
      m
  }

  /** The lookup the new schema supports: join camera_mapping with both
      camera tables and take the first record camera bound to the face
      camera whose IP is the snapshot's. */
  function BoundMapping(t: CameraTables.Tables, snapIp: string): MappingLookup
  {
    FirstBound(CameraTables.Joined(t, t.bindings), snapIp)
  }

  /** With the lookup through the bindings, a sighting at a bound face
      camera records a segment whose record camera is that of one of the
      face camera's bindings, and whose location is that binding's
      location (when not blank). */
  lemma BoundLookupRecordsBoundCamera(s: TrackState, t: CameraTables.Tables, personId: Guid, snapIp: string, snapTime: int,
                                      fallback: Option<string>, roomConfig: map<string, string>, now: int, b: int)
    requires StateValid(s)
    requires CameraTables.TablesValid(t)
    requires 0 <= b < |t.bindings|
    requires CameraTables.Find(t.faces, CameraTables.ById(t.bindings[b].faceCameraId)).value.cameraIp == snapIp
    requires Latest(s.rows, personId).None? || !EqualsIgnoreCase(Latest(s.rows, personId).value.snapCameraIp, snapIp)
    ensures var (s2, status) := HandleTrackOutcome(s, personId, snapIp, snapTime, fallback, BoundMapping(t, snapIp), roomConfig, now);
      && status == Inserted
      && |s2.rows| == |s.rows| + 1
      && exists i :: 0 <= i < |t.bindings| && CameraTables.JoinOne(t, t.bindings[i]).Some? &&
           var item := CameraTables.JoinOne(t, t.bindings[i]).value;
           && item.faceCameraIp == snapIp
           && s2.rows[|s.rows|].recordCameraIp == Some(item.recordCameraIp)
           && (!IsBlank(item.locationName) ==> s2.rows[|s.rows|].snapLocation == Some(item.locationName))
  {
    var m := BoundMapping(t, snapIp);
    CameraTables.JoinOneResolves(t, t.bindings[b]);
    BoundMappingNamesBinding(t, snapIp, b);
    HandleTrackMeaning(s, personId, snapIp, snapTime, fallback, m, roomConfig, now);
  }

  /** The lookup through the bindings of a bound face camera's IP answers
      the record camera and the location of one of that IP's bindings. */
  lemma BoundMappingNamesBinding(t: CameraTables.Tables, snapIp: string, b: int)
    requires CameraTables.TablesValid(t)
    requires 0 <= b < |t.bindings|
    requires CameraTables.JoinOne(t, t.bindings[b]).Some?
    requires CameraTables.JoinOne(t, t.bindings[b]).value.faceCameraIp == snapIp
    ensures exists i :: 0 <= i < |t.bindings| && CameraTables.JoinOne(t, t.bindings[i]).Some? &&
              var item := CameraTables.JoinOne(t, t.bindings[i]).value;
              && item.faceCameraIp == snapIp
              && BoundMapping(t, snapIp) == Mapping(item.recordCameraIp, item.locationName)
  {
    var items := CameraTables.Joined(t, t.bindings);
    CameraTables.EveryBindingJoins(t);
    CameraTables.JoinedWhenAllJoin(t, t.bindings);
    assert items[b].faceCameraIp == snapIp;
    var i :| 0 <= i < |items| && items[i].faceCameraIp == snapIp
      && BoundMapping(t, snapIp) == Mapping(items[i].recordCameraIp, items[i].locationName);
    assert items[i] == CameraTables.JoinOne(t, t.bindings[i]).value;
  }

  /** The tracker over one track table and one room configuration. */
  class TrackRecordService {
    const tracks: TrackTable
    const roomConfig: map<string, string>

    constructor(tracks: TrackTable, roomConfig: map<string, string>)
      ensures this.tracks == tracks && this.roomConfig == roomConfig
    {
      this.tracks := tracks;
      this.roomConfig := roomConfig;
    }

    /** HandleTrackAsync; mapping is what the camera-mapping lookup for
        snapIp gives at the moment the source performs it. */
    method HandleTrack(personId: Guid, snapIp: string, snapTime: int, fallback: Option<string>,
                       mapping: MappingLookup, now: int) returns (status: TrackStatus)
      requires tracks.Valid()
      modifies tracks
      ensures tracks.Valid()
      ensures (TrackState(tracks.rows, tracks.nextId), status)
        == HandleTrackOutcome(TrackState(old(tracks.rows), old(tracks.nextId)), personId, snapIp, snapTime,
                              fallback, mapping, roomConfig, now)
    {
      var latest := tracks.GetLatestTrack(personId);
      if latest.Some? && EqualsIgnoreCase(latest.value.snapCameraIp, snapIp) {
        return SameCamera;
      }
      if latest.Some? {
        tracks.UpdateTrackEndTime(latest.value.id, snapTime);
      }
      if mapping.LookupFailed? {
        return MappingFailed(mapping.error);
      }
      var recordCameraIp := if mapping.Mapping? then mapping.recordCameraIp else snapIp;
      var location := if mapping.Mapping? then mapping.roomName else "";
      if IsBlank(location) {
        if snapIp in roomConfig {
          location := roomConfig[snapIp];
        } else {
          location := if fallback.Some? then fallback.value else "";
        }
      }
      tracks.InsertTrack(NewSegment(personId, snapIp, snapTime, location, recordCameraIp, now));
      status := Inserted;
    }
  }
}
