/** CameraService: the administration of face cameras, record cameras and
    their bindings, as a sequence of checks and repository statements over
    the camera tables. Each operation is specified by a function from the
    tables before the call to the tables after it and the answer; the
    ArgumentExceptions the service throws are Err results. */
module CameraServiceModel {
  import opened Common
  import opened CameraTables

  const BlankIp := "ArgumentException: camera IP must not be empty"
  const BlankLocation := "ArgumentException: location name must not be empty"
  const FaceCameraMissing := "ArgumentException: face camera does not exist"
  const RecordCameraMissing := "ArgumentException: record camera does not exist"
  const BindingMissing := "ArgumentException: binding does not exist"
  const TargetRecordCameraMissing := "ArgumentException: target record camera does not exist"
  const NoIdOrIp := "ArgumentException: an id or an ip is required"

  /** s?.Trim() */
  function TrimOpt(s: Option<string>): (r: Option<string>)
    ensures r.Some? <==> s.Some?
    ensures r.Some? ==> r.value == Trim(s.value)
  {
    if s.Some? then Some(Trim(s.value)) else None
  }

  /** AddFaceCameraAsync / AddRecordCameraAsync: a blank IP (and, for a
      record camera, a blank location) is refused; the values are stored
      trimmed. */
  function AddCameraOutcome(t: Tables, kind: CameraKind, ip: string, info: Option<string>, now: int): Outcome<Camera>
  {
    if IsBlank(ip) then Outcome(t, Err(BlankIp))
    else if kind == RecordCameras && IsNullOrBlank(info) then Outcome(t, Err(BlankLocation))
    else AddOutcome(t, kind, Trim(ip), TrimOpt(info), now)
  }

  /** Add refuses a blank IP or location without touching the tables; what
      it stores is the trimmed IP and info, which are then non-blank, and
      no other row changes. */
  lemma AddCameraMeaning(t: Tables, kind: CameraKind, ip: string, info: Option<string>, now: int)
    requires TablesValid(t)
    ensures var o := AddCameraOutcome(t, kind, ip, info, now);
      && TablesValid(o.tables)
      && (IsBlank(ip) ==> o == Outcome(t, Err(BlankIp)))
      && (!IsBlank(ip) && kind == RecordCameras && IsNullOrBlank(info) ==> o == Outcome(t, Err(BlankLocation)))
      && (o.result.Ok? ==>
            && !IsBlank(ip)
            && o.result.value.cameraIp == Trim(ip) && o.result.value.cameraIp != []
            && o.result.value.info == TrimOpt(info)
            && (kind == RecordCameras ==> o.result.value.info.Some? && o.result.value.info.value != [])
            && Rows(o.tables, kind) == Rows(t, kind) + [o.result.value])
      && o.tables.bindings == t.bindings
  {
    if !IsBlank(ip) && !(kind == RecordCameras && IsNullOrBlank(info)) {
      AddMeaning(t, kind, Trim(ip), TrimOpt(info), now);
    }
  }

  /** BindCamerasAsync and ForceBindCamerasAsync: the face camera must exist,
      then the record camera; the binding is then inserted unconditionally. */
  function BindCamerasOutcome(t: Tables, faceId: int, recordId: int): Outcome<int>
  {
    if Find(t.faces, ById(faceId)).None? then Outcome(t, Err(FaceCameraMissing))
    else if Find(t.records, ById(recordId)).None? then Outcome(t, Err(RecordCameraMissing))
    else BindOutcome(t, faceId, recordId)
  }

  /** Binding succeeds iff both cameras exist, reports the face camera
      first, and then appends exactly one binding for the pair. */
  lemma BindCamerasMeaning(t: Tables, faceId: int, recordId: int)
    requires TablesValid(t)
    ensures var o := BindCamerasOutcome(t, faceId, recordId);
      && TablesValid(o.tables)
      && (!HasId(t.faces, faceId) ==> o == Outcome(t, Err(FaceCameraMissing)))
      && (HasId(t.faces, faceId) && !HasId(t.records, recordId) ==> o == Outcome(t, Err(RecordCameraMissing)))
      && (o.result.Ok? <==> HasId(t.faces, faceId) && HasId(t.records, recordId))
      && (o.result.Ok? ==> o.tables.bindings == t.bindings + [Binding(o.result.value, faceId, recordId)])
      && o.tables.faces == t.faces && o.tables.records == t.records
  {
    BindMeaning(t, faceId, recordId);
  }

  /** No uniqueness check: binding the same pair twice leaves two distinct
      bindings of that pair. */
  lemma {:induction false} BindTwiceGivesTwoBindings(t: Tables, faceId: int, recordId: int)
    requires TablesValid(t)
    requires HasId(t.faces, faceId) && HasId(t.records, recordId)
    ensures var o1 := BindCamerasOutcome(t, faceId, recordId);
      var o2 := BindCamerasOutcome(o1.tables, faceId, recordId);
      && o1.result.Ok? && o2.result.Ok?
      && o1.result.value != o2.result.value
      && o2.tables.bindings == t.bindings + [Binding(o1.result.value, faceId, recordId), Binding(o2.result.value, faceId, recordId)]
  {
    BindMeaning(t, faceId, recordId);
    var o1 := BindOutcome(t, faceId, recordId);
    assert BindCamerasOutcome(t, faceId, recordId) == o1;
    BindMeaning(o1.tables, faceId, recordId);
    var o2 := BindOutcome(o1.tables, faceId, recordId);
    assert BindCamerasOutcome(o1.tables, faceId, recordId) == o2;
    var bs1 := o1.tables.bindings;
    assert bs1[|bs1| - 1].id == o1.result.value;
  }

  /** As written, ForceBindCamerasAsync leaves an earlier binding of the
      record camera in place, so the record camera ends up bound twice. */
  lemma ForceBindKeepsEarlierBinding(t: Tables, faceId: int, recordId: int, b: Binding)
    requires TablesValid(t)
    requires HasId(t.faces, faceId) && HasId(t.records, recordId)
    requires b in t.bindings && b.recordCameraId == recordId
    ensures var o := BindCamerasOutcome(t, faceId, recordId);
      && o.result.Ok?
      && b in o.tables.bindings
      && Binding(o.result.value, faceId, recordId) in o.tables.bindings
      && b != Binding(o.result.value, faceId, recordId)
      && !RecordBoundOnce(o.tables.bindings)
  {
    BindCamerasMeaning(t, faceId, recordId);
    BindMeaning(t, faceId, recordId);
    var o := BindCamerasOutcome(t, faceId, recordId);
    var bs := o.tables.bindings;
    var k :| 0 <= k < |t.bindings| && t.bindings[k] == b;
    assert bs[k] == b && bs[|bs| - 1] == Binding(o.result.value, faceId, recordId);
  }

  /** The rule the service states for bindings: a record camera is bound to
      at most one face camera, by at most one binding. */
  predicate RecordBoundOnce(bs: seq<Binding>)
  {
    forall i, j :: 0 <= i < j < |bs| ==> bs[i].recordCameraId != bs[j].recordCameraId
  }

  function NotOfRecord(recordId: int): Binding -> bool
  {
    (b: Binding) => b.recordCameraId != recordId
  }

  /** The bindings without those of one record camera, still a valid table. */
  lemma DropRecordKeepsValid(t: Tables, recordId: int)
    requires TablesValid(t)
    ensures TablesValid(t.(bindings := Filter(t.bindings, NotOfRecord(recordId))))
  {
    FilterBindingIdsValid(t.bindings, t.nextBindingId, NotOfRecord(recordId));
    FilterKeepsRefs(t.bindings, NotOfRecord(recordId), t.faces, FaceCameras);
    FilterKeepsRefs(t.bindings, NotOfRecord(recordId), t.records, RecordCameras);
  }

  /** ForceBindCamerasAsync as its documentation describes it: the same
      existence checks, then any binding of the record camera is removed
      before the new one is inserted. */
  function ForceBindIntendedOutcome(t: Tables, faceId: int, recordId: int): Outcome<int>
  {
    if Find(t.faces, ById(faceId)).None? then Outcome(t, Err(FaceCameraMissing))
    else if Find(t.records, ById(recordId)).None? then Outcome(t, Err(RecordCameraMissing))
    else BindOutcome(t.(bindings := Filter(t.bindings, NotOfRecord(recordId))), faceId, recordId)
  }

  /** The intended force-bind succeeds iff both cameras exist; it then leaves
      the new binding as the record camera's only one and keeps every other
      binding, the face camera's other bindings included. */
  lemma ForceBindIntendedMeaning(t: Tables, faceId: int, recordId: int)
    requires TablesValid(t)
    ensures var o := ForceBindIntendedOutcome(t, faceId, recordId);
      && TablesValid(o.tables)
      && o.tables.faces == t.faces && o.tables.records == t.records
      && (o.result.Ok? <==> HasId(t.faces, faceId) && HasId(t.records, recordId))
      && (o.result.Err? ==> o.tables.bindings == t.bindings)
      && (o.result.Ok? ==>
            && Binding(o.result.value, faceId, recordId) in o.tables.bindings
            && (forall b :: b in o.tables.bindings && b.recordCameraId == recordId ==>
                              b == Binding(o.result.value, faceId, recordId))
            && (forall b :: b in t.bindings && b.recordCameraId != recordId ==> b in o.tables.bindings)
            && (forall b :: b in o.tables.bindings ==> b in t.bindings || b == Binding(o.result.value, faceId, recordId)))
  {
    if HasId(t.faces, faceId) && HasId(t.records, recordId) {
      ForceBindBothExist(t, faceId, recordId);
    } else {
      BindCamerasMeaning(t, faceId, recordId);
    }
  }

  /** The successful case of ForceBindIntendedMeaning. */
  lemma ForceBindBothExist(t: Tables, faceId: int, recordId: int)
    requires TablesValid(t)
    requires HasId(t.faces, faceId) && HasId(t.records, recordId)
    ensures var o := ForceBindIntendedOutcome(t, faceId, recordId);
      && o.result.Ok?
      && TablesValid(o.tables)
      && o.tables.faces == t.faces && o.tables.records == t.records
      && o.tables.bindings == Filter(t.bindings, NotOfRecord(recordId)) + [Binding(o.result.value, faceId, recordId)]
      && (forall b :: b in o.tables.bindings && b.recordCameraId == recordId ==>
                        b == Binding(o.result.value, faceId, recordId))
      && (forall b :: b in t.bindings && b.recordCameraId != recordId ==> b in o.tables.bindings)
      && (forall b :: b in o.tables.bindings ==> b in t.bindings || b == Binding(o.result.value, faceId, recordId))
  {
    var kept := Filter(t.bindings, NotOfRecord(recordId));
    var t1 := t.(bindings := kept);
    DropRecordKeepsValid(t, recordId);
    BindMeaning(t1, faceId, recordId);
    var o := BindOutcome(t1, faceId, recordId);
    assert ForceBindIntendedOutcome(t, faceId, recordId) == o;
    assert o.tables.bindings == kept + [Binding(o.result.value, faceId, recordId)];
    ReplaceRecordBinding(t.bindings, recordId, Binding(o.result.value, faceId, recordId));
  }

  /** Dropping a record camera's bindings and appending one new binding of it
      leaves that binding as its only one and keeps every other binding. */
  lemma ReplaceRecordBinding(bs: seq<Binding>, recordId: int, nb: Binding)
    requires nb.recordCameraId == recordId
    ensures var r := Filter(bs, NotOfRecord(recordId)) + [nb];
      && (forall b :: b in r && b.recordCameraId == recordId ==> b == nb)
      && (forall b :: b in bs && b.recordCameraId != recordId ==> b in r)
      && (forall b :: b in r ==> b in bs || b == nb)
  {
    var kept := Filter(bs, NotOfRecord(recordId));
    forall b | b in bs && b.recordCameraId != recordId
      ensures b in kept
    {
      var k :| 0 <= k < |bs| && bs[k] == b;
      assert NotOfRecord(recordId)(bs[k]);
    }
  }

  /** The intended force-bind keeps every record camera bound at most once. */
  lemma ForceBindKeepsRecordBoundOnce(t: Tables, faceId: int, recordId: int)
    requires TablesValid(t) && RecordBoundOnce(t.bindings)
    ensures RecordBoundOnce(ForceBindIntendedOutcome(t, faceId, recordId).tables.bindings)
  {
    ForceBindIntendedMeaning(t, faceId, recordId);
    var o := ForceBindIntendedOutcome(t, faceId, recordId);
    if o.result.Ok? {
      var kept := Filter(t.bindings, NotOfRecord(recordId));
      FilterKeepsPairwise(t.bindings, NotOfRecord(recordId),
                          (a: Binding, b: Binding) => a.recordCameraId != b.recordCameraId);
      var bs := o.tables.bindings;
      assert bs == kept + [Binding(o.result.value, faceId, recordId)];
      forall i, j | 0 <= i < j < |bs|
        ensures bs[i].recordCameraId != bs[j].recordCameraId
      {
        if j == |bs| - 1 {
          assert bs[i] == kept[i] && NotOfRecord(recordId)(kept[i]);
        }
      }
    }
  }

  /** BindCamerasAsync as its documentation describes it: a record camera
      that is already bound is refused. */
  const RecordCameraAlreadyBound := "ArgumentException: record camera is already bound"

  function BindIntendedOutcome(t: Tables, faceId: int, recordId: int): Outcome<int>
  {
    if Find(t.faces, ById(faceId)).None? then Outcome(t, Err(FaceCameraMissing))
    else if Find(t.records, ById(recordId)).None? then Outcome(t, Err(RecordCameraMissing))
    else if exists i :: 0 <= i < |t.bindings| && t.bindings[i].recordCameraId == recordId then
      Outcome(t, Err(RecordCameraAlreadyBound))
    else BindOutcome(t, faceId, recordId)
  }

  /** The intended bind refuses a bound record camera and otherwise appends
      one binding, so every record camera stays bound at most once. */
  lemma BindIntendedKeepsRecordBoundOnce(t: Tables, faceId: int, recordId: int)
    requires TablesValid(t) && RecordBoundOnce(t.bindings)
    ensures var o := BindIntendedOutcome(t, faceId, recordId);
      && RecordBoundOnce(o.tables.bindings)
      && ((exists i :: 0 <= i < |t.bindings| && t.bindings[i].recordCameraId == recordId) ==> o.result.Err?)
      && (o.result.Ok? <==> HasId(t.faces, faceId) && HasId(t.records, recordId)
                            && forall i :: 0 <= i < |t.bindings| ==> t.bindings[i].recordCameraId != recordId)
  {
    BindMeaning(t, faceId, recordId);
    var o := BindIntendedOutcome(t, faceId, recordId);
    if o.result.Ok? {
      AppendUnboundKeepsOnce(t.bindings, Binding(o.result.value, faceId, recordId));
    }
  }

  /** Appending a binding of a record camera that has none keeps every
      record camera bound at most once. */
  lemma AppendUnboundKeepsOnce(bs: seq<Binding>, nb: Binding)
    requires RecordBoundOnce(bs)
    requires forall i :: 0 <= i < |bs| ==> bs[i].recordCameraId != nb.recordCameraId
    ensures RecordBoundOnce(bs + [nb])
  {
    var r := bs + [nb];
    forall i, j | 0 <= i < j < |r|
      ensures r[i].recordCameraId != r[j].recordCameraId
    {
      assert r[i] == bs[i];
      if j < |bs| {
        assert r[j] == bs[j];
      }
    }
  }

  /** UpdateBindingAsync: an unknown binding is refused; unbinding takes
      precedence over a new record camera, which must exist; with neither
      the answer is false. */
  function UpdateBindingOutcome(t: Tables, mappingId: int, newRecordId: Option<int>, unbind: bool): Outcome<bool>
  {
    if FindBinding(t.bindings, mappingId).None? then Outcome(t, Err(BindingMissing))
    else if unbind then UnbindOutcome(t, mappingId)
    else if newRecordId.Some? then
      if Find(t.records, ById(newRecordId.value)).None? then Outcome(t, Err(TargetRecordCameraMissing))
      else RepointOutcome(t, mappingId, newRecordId.value)
    else Outcome(t, Ok(false))
  }

  lemma UpdateBindingMeaning(t: Tables, mappingId: int, newRecordId: Option<int>, unbind: bool)
    requires TablesValid(t)
    ensures var o := UpdateBindingOutcome(t, mappingId, newRecordId, unbind);
      && TablesValid(o.tables)
      && (FindBinding(t.bindings, mappingId).None? ==> o == Outcome(t, Err(BindingMissing)))
      && (FindBinding(t.bindings, mappingId).Some? && unbind ==>
            o.result == Ok(true) && forall b :: b in o.tables.bindings <==> b in t.bindings && b.id != mappingId)
      && (FindBinding(t.bindings, mappingId).Some? && !unbind && newRecordId.Some? && !HasId(t.records, newRecordId.value) ==>
            o == Outcome(t, Err(TargetRecordCameraMissing)))
      && (FindBinding(t.bindings, mappingId).Some? && !unbind && newRecordId.Some? && HasId(t.records, newRecordId.value) ==>
            o.result == Ok(true) && o.tables.bindings == Repointed(t.bindings, mappingId, newRecordId.value))
      && (FindBinding(t.bindings, mappingId).Some? && !unbind && newRecordId.None? ==> o == Outcome(t, Ok(false)))
  {
    if FindBinding(t.bindings, mappingId).Some? {
      if unbind {
        UnbindMeaning(t, mappingId);
      } else if newRecordId.Some? {
        var rid := newRecordId.value;
        assert Find(t.records, ById(rid)).None? <==> !HasId(t.records, rid);
        if HasId(t.records, rid) {
          RepointMeaning(t, mappingId, rid);
        }
      }
    }
  }

  /** The id wins over the IP, the IP is trimmed, neither is refused. */
  function Addressed(id: Option<int>, ip: Option<string>): Result<Selector>
  {
    if id.Some? then Ok(ById(id.value))
    else if !IsNullOrBlank(ip) then Ok(ByIp(Trim(ip.value)))
    else Err(NoIdOrIp)
  }

  /** DeleteFaceCameraAsync / DeleteRecordCameraAsync. */
  function DeleteCameraOutcome(t: Tables, kind: CameraKind, id: Option<int>, ip: Option<string>): Outcome<bool>
  {
    var sel := Addressed(id, ip);
    if sel.Err? then Outcome(t, Err(sel.error)) else DeleteOutcome(t, kind, sel.value)
  }

  lemma DeleteCameraMeaning(t: Tables, kind: CameraKind, id: Option<int>, ip: Option<string>)
    requires TablesValid(t)
    ensures var o := DeleteCameraOutcome(t, kind, id, ip);
      && TablesValid(o.tables)
      && (id.None? && IsNullOrBlank(ip) ==> o == Outcome(t, Err(NoIdOrIp)))
      && (id.Some? ==>
            && o.result == Ok(AnySelected(Rows(t, kind), ById(id.value)))
            && forall c :: c in Rows(o.tables, kind) <==> c in Rows(t, kind) && c.id != id.value)
      && (id.None? && !IsNullOrBlank(ip) ==>
            && o.result == Ok(AnySelected(Rows(t, kind), ByIp(Trim(ip.value))))
            && forall c :: c in Rows(o.tables, kind) <==> c in Rows(t, kind) && c.cameraIp != Trim(ip.value))
  {
    var sel := Addressed(id, ip);
    if sel.Ok? {
      DeleteMeaning(t, kind, sel.value);
      DeleteKeepsValid(t, kind, sel.value);
    }
  }

  /** Deleting a camera also removes every binding that named it. */
  lemma DeleteCameraCascades(t: Tables, kind: CameraKind, cameraId: int)
    requires TablesValid(t)
    ensures var o := DeleteCameraOutcome(t, kind, Some(cameraId), None);
      forall b :: b in o.tables.bindings <==> b in t.bindings && RefOf(b, kind) != cameraId
  {
    var rows := Rows(t, kind);
    DeleteMeaning(t, kind, ById(cameraId));
    forall b | b in t.bindings
      ensures Orphaned(b, rows, kind, ById(cameraId)) <==> RefOf(b, kind) == cameraId
    {
      var i :| 0 <= i < |t.bindings| && t.bindings[i] == b;
      BindingRefResolves(t, kind, i);
      OrphanedById(b, rows, kind, cameraId);
    }
  }

  /** Under the schema a binding names an existing camera of either kind. */
  lemma BindingRefResolves(t: Tables, kind: CameraKind, i: int)
    requires TablesValid(t) && 0 <= i < |t.bindings|
    ensures HasId(Rows(t, kind), RefOf(t.bindings[i], kind))
  {
  }

  /** A binding whose camera exists is orphaned by deleting an id exactly
      when it names that id. */
  lemma OrphanedById(b: Binding, rows: seq<Camera>, kind: CameraKind, cameraId: int)
    requires HasId(rows, RefOf(b, kind))
    ensures Orphaned(b, rows, kind, ById(cameraId)) <==> RefOf(b, kind) == cameraId
  {
    var k :| 0 <= k < |rows| && rows[k].id == RefOf(b, kind);
    if RefOf(b, kind) == cameraId {
      assert Selects(ById(cameraId), rows[k]);
    }
  }

  /** UpdateFaceCameraAsync / UpdateRecordCameraAsync: look the camera up by
      id or trimmed IP, update it by the same key with trimmed values, and
      answer the row as it reads back by id (or as it was, if it is gone). */
  function UpdateCameraOutcome(t: Tables, kind: CameraKind, id: Option<int>, ip: Option<string>,
                               newIp: Option<string>, newInfo: Option<string>): Outcome<Option<Camera>>
  {
    var sel := Addressed(id, ip);
    if sel.Err? then Outcome(t, Err(sel.error))
    else
      var entity := Find(Rows(t, kind), sel.value);
      if entity.None? then Outcome(t, Ok(None))
      else
        ReadBack(UpdateOutcome(t, kind, sel.value, TrimOpt(newIp), TrimOpt(newInfo)), kind, entity.value)
  }

  /** After the UPDATE: its exception, or the row read back by id. */
  function ReadBack(u: Outcome<bool>, kind: CameraKind, entity: Camera): Outcome<Option<Camera>>
  {
    if u.result.Err? then Outcome(u.tables, Err(u.result.error))
    else
      var updated := Find(Rows(u.tables, kind), ById(entity.id));
      Outcome(u.tables, Ok(Some(if updated.Some? then updated.value else entity)))
  }

  /** Neither id nor IP is refused, an unknown camera gives null and
      changes nothing, and otherwise the answer is the addressed camera
      with the given fields replaced by their trimmed values. */
  lemma UpdateCameraMeaning(t: Tables, kind: CameraKind, id: Option<int>, ip: Option<string>,
                            newIp: Option<string>, newInfo: Option<string>)
    requires TablesValid(t)
    ensures var o := UpdateCameraOutcome(t, kind, id, ip, newIp, newInfo);
      && TablesValid(o.tables)
      && (id.None? && IsNullOrBlank(ip) ==> o == Outcome(t, Err(NoIdOrIp)))
      && (Addressed(id, ip).Ok? && !AnySelected(Rows(t, kind), Addressed(id, ip).value) ==> o == Outcome(t, Ok(None)))
      && (o.result.Ok? && o.result.value.Some? ==>
            exists i :: 0 <= i < |Rows(t, kind)| && Selects(Addressed(id, ip).value, Rows(t, kind)[i])
              && o.result.value.value == Updated(Rows(t, kind)[i], TrimOpt(newIp), TrimOpt(newInfo)))
  {
    var sel := Addressed(id, ip);
    if sel.Ok? {
      var k := FindIndex(Rows(t, kind), sel.value);
      if k >= 0 {
        UpdateFoundReadsBack(t, kind, sel.value, k, TrimOpt(newIp), TrimOpt(newInfo));
      }
    }
  }

  /** Updating a row that exists reads back as that row with the given
      fields replaced, and keeps the schema's constraints. */
  lemma UpdateFoundReadsBack(t: Tables, kind: CameraKind, sel: Selector, k: int, ni: Option<string>, nf: Option<string>)
    requires TablesValid(t)
    requires 0 <= k < |Rows(t, kind)| && Selects(sel, Rows(t, kind)[k])
    ensures var o := ReadBack(UpdateOutcome(t, kind, sel, ni, nf), kind, Rows(t, kind)[k]);
      && TablesValid(o.tables)
      && (o.result.Ok? ==> o.result.value == Some(Updated(Rows(t, kind)[k], ni, nf)))
  {
    var rows := Rows(t, kind);
    var u := UpdateOutcome(t, kind, sel, ni, nf);
    if ni.None? && nf.None? {
      FindMeaning(rows, NextId(t, kind), ById(rows[k].id), k);
      assert Updated(rows[k], ni, nf) == rows[k];
    } else {
      UpdateMeaning(t, kind, sel, ni, nf);
      if u.result.Ok? {
        var after := Rows(u.tables, kind);
        assert after[k] == Updated(rows[k], ni, nf);
        assert RowsValid(after, NextId(u.tables, kind));
        FindMeaning(after, NextId(u.tables, kind), ById(rows[k].id), k);
      }
    }
  }

  /** The service over one database. */
  class CameraService {
    const db: CameraDatabase

    constructor(db: CameraDatabase)
      ensures this.db == db
    {
      this.db := db;
    }

    /** AddFaceCameraAsync (kind FaceCameras, info = description) and
        AddRecordCameraAsync (kind RecordCameras, info = location name). */
    method AddCamera(kind: CameraKind, ip: string, info: Option<string>, now: int) returns (r: Result<Camera>)
      requires db.Valid()
      modifies db
      ensures db.Valid()
      ensures Outcome(db.State(), r) == AddCameraOutcome(old(db.State()), kind, ip, info, now)
    {
      if IsBlank(ip) {
        return Err(BlankIp);
      }
      if kind == RecordCameras && IsNullOrBlank(info) {
        return Err(BlankLocation);
      }
      r := db.Add(kind, Trim(ip), TrimOpt(info), now);
    }

    /** ListFaceCamerasAsync / ListRecordCamerasAsync. */
    method ListCameras(kind: CameraKind) returns (list: seq<Camera>)
      requires db.Valid()
      ensures list == Rows(db.State(), kind)
      ensures forall i, j :: 0 <= i < j < |list| ==> list[i].id < list[j].id
    {
      list := db.ListAll(kind);
    }

    /** BindCamerasAsync; ForceBindCamerasAsync runs the same steps. */
    method BindCameras(faceId: int, recordId: int) returns (r: Result<int>)
      requires db.Valid()
      modifies db
      ensures db.Valid()
      ensures Outcome(db.State(), r) == BindCamerasOutcome(old(db.State()), faceId, recordId)
    {
      var face := db.Get(FaceCameras, ById(faceId));
      if face.None? {
        return Err(FaceCameraMissing);
      }
      var record := db.Get(RecordCameras, ById(recordId));
      if record.None? {
        return Err(RecordCameraMissing);
      }
      r := db.Bind(faceId, recordId);
    }

    /** ForceBindCamerasAsync: despite its name, the same checks and the
        same single insert as BindCamerasAsync; no binding is removed. */
    method ForceBindCameras(faceId: int, recordId: int) returns (r: Result<int>)
      requires db.Valid()
      modifies db
      ensures db.Valid()
      ensures Outcome(db.State(), r) == BindCamerasOutcome(old(db.State()), faceId, recordId)
    {
      var face := db.Get(FaceCameras, ById(faceId));
      if face.None? {
        return Err(FaceCameraMissing);
      }
      var record := db.Get(RecordCameras, ById(recordId));
      if record.None? {
        return Err(RecordCameraMissing);
      }
      r := db.Bind(faceId, recordId);
    }

    /** ListBindingsAsync. */
    method ListBindings() returns (items: seq<BoundCameraItem>)
      ensures items == Joined(db.State(), db.bindings)
    {
      items := db.ListBindings();
    }

    /** UpdateBindingAsync. */
    method UpdateBinding(mappingId: int, newRecordId: Option<int>, unbind: bool) returns (r: Result<bool>)
      requires db.Valid()
      modifies db
      ensures db.Valid()
      ensures Outcome(db.State(), r) == UpdateBindingOutcome(old(db.State()), mappingId, newRecordId, unbind)
    {
      var binding := db.GetBinding(mappingId);
      if binding.None? {
        return Err(BindingMissing);
      }
      if unbind {
        var removed := db.Unbind(mappingId);
        return Ok(removed);
      }
      if newRecordId.Some? {
        var record := db.Get(RecordCameras, ById(newRecordId.value));
        if record.None? {
          return Err(TargetRecordCameraMissing);
        }
        r := db.Repoint(mappingId, newRecordId.value);
        return;
      }
      r := Ok(false);
    }

    /** DeleteFaceCameraAsync / DeleteRecordCameraAsync. */
    method DeleteCamera(kind: CameraKind, id: Option<int>, ip: Option<string>) returns (r: Result<bool>)
      requires db.Valid()
      modifies db
      ensures db.Valid()
      ensures Outcome(db.State(), r) == DeleteCameraOutcome(old(db.State()), kind, id, ip)
    {
      if id.Some? {
        var removed := db.Delete(kind, ById(id.value));
        return Ok(removed);
      }
      if !IsNullOrBlank(ip) {
        var removed := db.Delete(kind, ByIp(Trim(ip.value)));
        return Ok(removed);
      }
      r := Err(NoIdOrIp);
    }

    /** UpdateFaceCameraAsync / UpdateRecordCameraAsync. */
    method UpdateCamera(kind: CameraKind, id: Option<int>, ip: Option<string>,
                        newIp: Option<string>, newInfo: Option<string>) returns (r: Result<Option<Camera>>)
      requires db.Valid()
      modifies db
      ensures db.Valid()
      ensures Outcome(db.State(), r) == UpdateCameraOutcome(old(db.State()), kind, id, ip, newIp, newInfo)
    {
      var sel: Selector;
      if id.Some? {
        sel := ById(id.value);
      } else if !IsNullOrBlank(ip) {
        sel := ByIp(Trim(ip.value));
      } else {
        return Err(NoIdOrIp);
      }
      assert sel == Addressed(id, ip).value;
      var entity := db.Get(kind, sel);
      if entity.None? {
        return Ok(None);
      }
      ghost var t0 := db.State();
      var done := db.Update(kind, sel, TrimOpt(newIp), TrimOpt(newInfo));
      ghost var u := UpdateOutcome(t0, kind, sel, TrimOpt(newIp), TrimOpt(newInfo));
      assert UpdateCameraOutcome(t0, kind, id, ip, newIp, newInfo) == ReadBack(u, kind, entity.value);
      if done.Err? {
        return Err(done.error);
      }
      var updated := db.Get(kind, ById(entity.value.id));
      r := Ok(Some(if updated.Some? then updated.value else entity.value));
    }
  }
}
