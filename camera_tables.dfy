/** The camera topology tables: face_cameras, record_cameras and the
    camera_mapping bindings between them, with the constraints the schema
    puts on them (bigserial ids, UNIQUE camera_ip, NOT NULL location_name,
    foreign keys with ON DELETE CASCADE). The face-camera and the
    record-camera repositories run the same statements on tables of the same
    shape, so one set of definitions, indexed by CameraKind, models both. */
module CameraTables {
  import opened Common

  datatype CameraKind = FaceCameras | RecordCameras

  /** A row of face_cameras (info = description, nullable) or of
      record_cameras (info = location_name, never null). */
  datatype Camera = Camera(id: int, cameraIp: string, info: Option<string>, createdAt: int)

  /** A row of camera_mapping. */
  datatype Binding = Binding(id: int, faceCameraId: int, recordCameraId: int)

  /** A binding joined with the two cameras it names. */
  datatype BoundCameraItem = BoundCameraItem(
    mappingId: int,
    faceCameraId: int, faceCameraIp: string,
    recordCameraId: int, recordCameraIp: string,
    locationName: string)

  /** The three tables and the next value of each table's id sequence. */
  datatype Tables = Tables(
    faces: seq<Camera>, records: seq<Camera>, bindings: seq<Binding>,
    nextFaceId: int, nextRecordId: int, nextBindingId: int)

  /** What a statement leaves behind: the tables and its result or exception. */
  datatype Outcome<R> = Outcome(tables: Tables, result: Result<R>)

  const UniqueViolation := "PostgresException 23505: duplicate camera_ip"
  const ForeignKeyViolation := "PostgresException 23503: camera id not present"

  const EmptyTables := Tables([], [], [], 1, 1, 1)

  /** The WHERE clause of a by-id or by-IP statement. */
  datatype Selector = ById(id: int) | ByIp(ip: string)

  predicate Selects(sel: Selector, c: Camera)
  {
    match sel
    case ById(id) => c.id == id
    case ByIp(ip) => c.cameraIp == ip
  }

  function Rows(t: Tables, kind: CameraKind): seq<Camera>
  {
    if kind == FaceCameras then t.faces else t.records
  }

  function NextId(t: Tables, kind: CameraKind): int
  {
    if kind == FaceCameras then t.nextFaceId else t.nextRecordId
  }

  function WithRows(t: Tables, kind: CameraKind, rows: seq<Camera>): Tables
  {
    if kind == FaceCameras then t.(faces := rows) else t.(records := rows)
  }

  /** nextval(): the sequence advances whether or not the insert succeeds. */
  function Advance(t: Tables, kind: CameraKind): Tables
  {
    if kind == FaceCameras then t.(nextFaceId := t.nextFaceId + 1)
    else t.(nextRecordId := t.nextRecordId + 1)
  }

  function OtherKind(kind: CameraKind): CameraKind
  {
    if kind == FaceCameras then RecordCameras else FaceCameras
  }

  /** The camera of the given kind that a binding references. */
  function RefOf(b: Binding, kind: CameraKind): int
  {
    if kind == FaceCameras then b.faceCameraId else b.recordCameraId
  }

  predicate HasId(rows: seq<Camera>, id: int)
  {
    exists i :: 0 <= i < |rows| && rows[i].id == id
  }

  /** bigserial ids below the sequence's next value, in insertion order, and
      the UNIQUE constraint on camera_ip. */
  predicate RowsValid(rows: seq<Camera>, next: int)
  {
    && 1 <= next
    && (forall i :: 0 <= i < |rows| ==> 1 <= rows[i].id < next)
    && (forall i, j :: 0 <= i < j < |rows| ==> rows[i].id < rows[j].id)
    && (forall i, j :: 0 <= i < j < |rows| ==> rows[i].cameraIp != rows[j].cameraIp)
  }

  /** Every binding names a face camera and a record camera that exist. */
  predicate BindingsResolve(t: Tables)
  {
    forall i :: 0 <= i < |t.bindings| ==>
      HasId(t.faces, t.bindings[i].faceCameraId) && HasId(t.records, t.bindings[i].recordCameraId)
  }

  predicate BindingIdsValid(bs: seq<Binding>, next: int)
  {
    && 1 <= next
    && (forall i :: 0 <= i < |bs| ==> 1 <= bs[i].id < next)
    && (forall i, j :: 0 <= i < j < |bs| ==> bs[i].id < bs[j].id)
  }

  /** The constraints the schema keeps on the three tables. */
  predicate TablesValid(t: Tables)
  {
    && RowsValid(t.faces, t.nextFaceId)
    && RowsValid(t.records, t.nextRecordId)
    && (forall i :: 0 <= i < |t.records| ==> t.records[i].info.Some?)
    && BindingIdsValid(t.bindings, t.nextBindingId)
    && BindingsResolve(t)
  }

  lemma EmptyTablesValid()
    ensures TablesValid(EmptyTables)
  {
  }

  /** The first row the selector matches, or -1. */
  function FindIndex(rows: seq<Camera>, sel: Selector): (k: int)
    ensures -1 <= k < |rows|
    ensures k == -1 <==> forall i :: 0 <= i < |rows| ==> !Selects(sel, rows[i])
    ensures k >= 0 ==> Selects(sel, rows[k]) && forall i :: 0 <= i < k ==> !Selects(sel, rows[i])
  {
    if rows == [] then -1
    else if Selects(sel, rows[0]) then 0
    else
      var k := FindIndex(rows[1..], sel);
      if k == -1 then -1 else k + 1
  }

  /** SELECT ... WHERE id = @id / WHERE camera_ip = @camera_ip, first row. */
  function Find(rows: seq<Camera>, sel: Selector): Option<Camera>
  {
    var k := FindIndex(rows, sel);
    if k < 0 then None else Some(rows[k])
  }

  /** Under the schema at most one row matches a by-id or a by-IP selector,
      so the row a lookup returns is the only one. */
  lemma SelectorMatchesAtMostOne(rows: seq<Camera>, next: int, sel: Selector, i: int, j: int)
    requires RowsValid(rows, next)
    requires 0 <= i < |rows| && 0 <= j < |rows|
    requires Selects(sel, rows[i]) && Selects(sel, rows[j])
    ensures i == j
  {
    if i < j || j < i {
      assert false;
    }
  }

  /** A lookup finds a row exactly when one matches, and then that row. */
  lemma FindMeaning(rows: seq<Camera>, next: int, sel: Selector, i: int)
    requires RowsValid(rows, next)
    requires 0 <= i < |rows|
    ensures Find(rows, sel) == Some(rows[i]) <==> Selects(sel, rows[i])
  {
    var k := FindIndex(rows, sel);
    if Selects(sel, rows[i]) {
      SelectorMatchesAtMostOne(rows, next, sel, i, k);
    } else if k >= 0 && rows[k] == rows[i] {
      assert false;
    }
  }

  /** Bindings keep resolving when no camera id disappears. */
  lemma KeepsResolving(t: Tables, u: Tables)
    requires BindingsResolve(t)
    requires u.bindings == t.bindings
    requires forall id :: HasId(t.faces, id) ==> HasId(u.faces, id)
    requires forall id :: HasId(t.records, id) ==> HasId(u.records, id)
    ensures BindingsResolve(u)
  {
  }

  // ---------------------------------------------------------------- INSERT

  /** INSERT ... RETURNING: the id comes from the sequence, which is consumed
      even when the UNIQUE constraint on camera_ip rejects the row. */
  function AddOutcome(t: Tables, kind: CameraKind, ip: string, info: Option<string>, now: int): (o: Outcome<Camera>)
  {
    var row := Camera(NextId(t, kind), ip, info, now);
    var t1 := Advance(t, kind);
    if FindIndex(Rows(t, kind), ByIp(ip)) >= 0 then Outcome(t1, Err(UniqueViolation))
    else Outcome(WithRows(t1, kind, Rows(t, kind) + [row]), Ok(row))
  }

  /** Appending a row with the sequence's next id and a new IP keeps the
      table's constraints, with the sequence one further on. */
  lemma AppendKeepsRowsValid(rows: seq<Camera>, next: int, row: Camera)
    requires RowsValid(rows, next) && row.id == next
    requires forall i :: 0 <= i < |rows| ==> rows[i].cameraIp != row.cameraIp
    ensures RowsValid(rows + [row], next + 1)
    ensures forall id :: HasId(rows, id) ==> HasId(rows + [row], id)
  {
    var r := rows + [row];
    assert forall i :: 0 <= i < |rows| ==> r[i] == rows[i];
    forall id | HasId(rows, id)
      ensures HasId(r, id)
    {
      var k :| 0 <= k < |rows| && rows[k].id == id;
      assert r[k] == rows[k];
    }
  }

  lemma AppendFaceKeepsValid(t: Tables, row: Camera)
    requires TablesValid(t) && row.id == t.nextFaceId
    requires forall i :: 0 <= i < |t.faces| ==> t.faces[i].cameraIp != row.cameraIp
    ensures TablesValid(t.(faces := t.faces + [row], nextFaceId := t.nextFaceId + 1))
  {
    AppendKeepsRowsValid(t.faces, t.nextFaceId, row);
    KeepsResolving(t, t.(faces := t.faces + [row], nextFaceId := t.nextFaceId + 1));
  }

  lemma AppendRecordKeepsValid(t: Tables, row: Camera)
    requires TablesValid(t) && row.id == t.nextRecordId && row.info.Some?
    requires forall i :: 0 <= i < |t.records| ==> t.records[i].cameraIp != row.cameraIp
    ensures TablesValid(t.(records := t.records + [row], nextRecordId := t.nextRecordId + 1))
  {
    var u := t.(records := t.records + [row], nextRecordId := t.nextRecordId + 1);
    AppendKeepsRowsValid(t.records, t.nextRecordId, row);
    assert forall i :: 0 <= i < |t.records| ==> u.records[i] == t.records[i];
    KeepsResolving(t, u);
  }

  /** An insert keeps the schema's constraints. */
  lemma AddKeepsTablesValid(t: Tables, kind: CameraKind, ip: string, info: Option<string>, now: int)
    requires TablesValid(t)
    requires kind == RecordCameras ==> info.Some?
    ensures TablesValid(AddOutcome(t, kind, ip, info, now).tables)
  {
    var o := AddOutcome(t, kind, ip, info, now);
    if o.result.Ok? {
      if kind == FaceCameras {
        AppendFaceKeepsValid(t, o.result.value);
      } else {
        AppendRecordKeepsValid(t, o.result.value);
      }
    }
  }

  /** An insert succeeds iff the IP is new; the stored row carries the given
      IP and info under a fresh id, and nothing else changes. */
  lemma AddMeaning(t: Tables, kind: CameraKind, ip: string, info: Option<string>, now: int)
    requires TablesValid(t)
    requires kind == RecordCameras ==> info.Some?
    ensures var o := AddOutcome(t, kind, ip, info, now);
      && (o.result.Ok? <==> forall i :: 0 <= i < |Rows(t, kind)| ==> Rows(t, kind)[i].cameraIp != ip)
      && (o.result.Ok? ==>
            && o.result.value.cameraIp == ip && o.result.value.info == info
            && !HasId(Rows(t, kind), o.result.value.id)
            && Rows(o.tables, kind) == Rows(t, kind) + [o.result.value])
      && (o.result.Err? ==> Rows(o.tables, kind) == Rows(t, kind))
      && o.tables.bindings == t.bindings
      && TablesValid(o.tables)
  {
    AddKeepsTablesValid(t, kind, ip, info, now);
  }

  /** A row just inserted is what a lookup by its id or by its IP returns. */
  lemma AddThenFind(t: Tables, kind: CameraKind, ip: string, info: Option<string>, now: int)
    requires TablesValid(t)
    requires kind == RecordCameras ==> info.Some?
    requires AddOutcome(t, kind, ip, info, now).result.Ok?
    ensures var o := AddOutcome(t, kind, ip, info, now);
      && Find(Rows(o.tables, kind), ById(o.result.value.id)) == Some(o.result.value)
      && Find(Rows(o.tables, kind), ByIp(ip)) == Some(o.result.value)
  {
    var o := AddOutcome(t, kind, ip, info, now);
    AddMeaning(t, kind, ip, info, now);
    var rows := Rows(o.tables, kind);
    var last := |rows| - 1;
    FindMeaning(rows, NextId(o.tables, kind), ById(o.result.value.id), last);
    FindMeaning(rows, NextId(o.tables, kind), ByIp(ip), last);
  }

  // ---------------------------------------------------------------- UPDATE

  /** The SET list: only the columns given a non-null value change. */
  function Updated(c: Camera, newIp: Option<string>, newInfo: Option<string>): Camera
  {
    c.(cameraIp := if newIp.Some? then newIp.value else c.cameraIp,
       info := if newInfo.Some? then newInfo else c.info)
  }

  function UpdateWhere(rows: seq<Camera>, sel: Selector, newIp: Option<string>, newInfo: Option<string>): (r: seq<Camera>)
    ensures |r| == |rows|
    ensures forall i :: 0 <= i < |rows| ==>
      r[i] == if Selects(sel, rows[i]) then Updated(rows[i], newIp, newInfo) else rows[i]
  {
    seq(|rows|, i requires 0 <= i < |rows| =>
      if Selects(sel, rows[i]) then Updated(rows[i], newIp, newInfo) else rows[i])
  }

  predicate AnySelected(rows: seq<Camera>, sel: Selector)
  {
    exists i :: 0 <= i < |rows| && Selects(sel, rows[i])
  }

  predicate IpsDistinct(rows: seq<Camera>)
  {
    forall i, j :: 0 <= i < j < |rows| ==> rows[i].cameraIp != rows[j].cameraIp
  }

  /** UpdateByIdAsync / UpdateByIpAsync: with no field to set, nothing is
      sent and the answer is true; otherwise the UPDATE either violates
      the UNIQUE constraint on camera_ip and changes nothing, or changes the
      selected rows and reports whether there were any. */
  function UpdateOutcome(t: Tables, kind: CameraKind, sel: Selector, newIp: Option<string>, newInfo: Option<string>): Outcome<bool>
  {
    if newIp.None? && newInfo.None? then Outcome(t, Ok(true))
    else
      var rows := UpdateWhere(Rows(t, kind), sel, newIp, newInfo);
      if !IpsDistinct(rows) then Outcome(t, Err(UniqueViolation))
      else Outcome(WithRows(t, kind, rows), Ok(AnySelected(Rows(t, kind), sel)))
  }

  /** With both new values null the tables are untouched and the answer is
      true, whether or not any row matches. */
  lemma UpdateNothingIsTrue(t: Tables, kind: CameraKind, sel: Selector)
    ensures UpdateOutcome(t, kind, sel, None, None) == Outcome(t, Ok(true))
  {
  }

  /** An update keeps every id, changes only the given columns of the
      selected rows, reports whether a row was selected, and keeps the
      schema's constraints. */
  lemma UpdateMeaning(t: Tables, kind: CameraKind, sel: Selector, newIp: Option<string>, newInfo: Option<string>)
    requires TablesValid(t)
    requires newIp.Some? || newInfo.Some?
    ensures var o := UpdateOutcome(t, kind, sel, newIp, newInfo);
      && TablesValid(o.tables)
      && o.tables.bindings == t.bindings
      && |Rows(o.tables, kind)| == |Rows(t, kind)|
      && (o.result.Err? ==> o.tables == t)
      && (o.result.Ok? ==> (o.result.value <==> AnySelected(Rows(t, kind), sel)))
      && (o.result.Ok? ==> forall i :: 0 <= i < |Rows(t, kind)| ==>
            var before := Rows(t, kind)[i];
            var after := Rows(o.tables, kind)[i];
            && after.id == before.id && after.createdAt == before.createdAt
            && after.cameraIp == (if Selects(sel, before) && newIp.Some? then newIp.value else before.cameraIp)
            && after.info == (if Selects(sel, before) && newInfo.Some? then newInfo else before.info))
  {
    var o := UpdateOutcome(t, kind, sel, newIp, newInfo);
    var rows := Rows(t, kind);
    if o.result.Ok? {
      UpdateWhereKeepsRows(rows, NextId(t, kind), sel, newIp, newInfo);
      assert Rows(o.tables, kind) == UpdateWhere(rows, sel, newIp, newInfo);
      KeepsResolving(t, o.tables);
    }
  }

  /** An UPDATE that keeps camera_ip unique leaves the rows well formed,
      keeps every id and keeps every non-null info non-null. */
  lemma UpdateWhereKeepsRows(rows: seq<Camera>, next: int, sel: Selector, newIp: Option<string>, newInfo: Option<string>)
    requires RowsValid(rows, next)
    requires IpsDistinct(UpdateWhere(rows, sel, newIp, newInfo))
    ensures var r := UpdateWhere(rows, sel, newIp, newInfo);
      && RowsValid(r, next)
      && (forall id :: HasId(rows, id) ==> HasId(r, id))
      && (forall i :: 0 <= i < |rows| && rows[i].info.Some? ==> r[i].info.Some?)
  {
    var r := UpdateWhere(rows, sel, newIp, newInfo);
    assert forall i :: 0 <= i < |rows| ==> r[i].id == rows[i].id;
    forall id | HasId(rows, id)
      ensures HasId(r, id)
    {
      var k :| 0 <= k < |rows| && rows[k].id == id;
      assert r[k].id == rows[k].id;
    }
  }

  // ---------------------------------------------------------------- DELETE

  function Unselected(sel: Selector): Camera -> bool
  {
    (c: Camera) => !Selects(sel, c)
  }

  /** A binding that references a deleted row of the given kind. */
  predicate Orphaned(b: Binding, rows: seq<Camera>, kind: CameraKind, sel: Selector)
  {
    exists i :: 0 <= i < |rows| && Selects(sel, rows[i]) && rows[i].id == RefOf(b, kind)
  }

  function KeptBinding(rows: seq<Camera>, kind: CameraKind, sel: Selector): Binding -> bool
  {
    (b: Binding) => !Orphaned(b, rows, kind, sel)
  }

  /** DELETE ... WHERE: the selected rows go, and ON DELETE CASCADE removes
      the bindings that reference them; the answer is whether a row went. */
  function DeleteOutcome(t: Tables, kind: CameraKind, sel: Selector): Outcome<bool>
  {
    var rows := Rows(t, kind);
    var kept := Filter(rows, Unselected(sel));
    var bindings := Filter(t.bindings, KeptBinding(rows, kind, sel));
    Outcome(WithRows(t, kind, kept).(bindings := bindings), Ok(|kept| < |rows|))
  }

  /** Delete removes exactly the selected rows and the bindings that named
      them, and reports true iff a row was selected. */
  lemma DeleteMeaning(t: Tables, kind: CameraKind, sel: Selector)
    ensures var o := DeleteOutcome(t, kind, sel);
      && (o.result == Ok(AnySelected(Rows(t, kind), sel)))
      && Rows(o.tables, OtherKind(kind)) == Rows(t, OtherKind(kind))
      && (forall c :: c in Rows(o.tables, kind) <==> c in Rows(t, kind) && !Selects(sel, c))
      && (forall b :: b in o.tables.bindings <==> b in t.bindings && !Orphaned(b, Rows(t, kind), kind, sel))
  {
    var rows := Rows(t, kind);
    var o := DeleteOutcome(t, kind, sel);
    var kept := Filter(rows, Unselected(sel));
    assert |kept| < |rows| <==> AnySelected(rows, sel);
    forall c | c in rows && !Selects(sel, c)
      ensures c in kept
    {
      var k :| 0 <= k < |rows| && rows[k] == c;
    }
    forall b | b in t.bindings && !Orphaned(b, rows, kind, sel)
      ensures b in o.tables.bindings
    {
      var k :| 0 <= k < |t.bindings| && t.bindings[k] == b;
    }
  }

  lemma FilterRowsValid(rows: seq<Camera>, next: int, p: Camera -> bool)
    requires RowsValid(rows, next)
    ensures RowsValid(Filter(rows, p), next)
  {
    FilterKeepsPairwise(rows, p, (a: Camera, b: Camera) => a.id < b.id);
    FilterKeepsPairwise(rows, p, (a: Camera, b: Camera) => a.cameraIp != b.cameraIp);
  }

  lemma FilterBindingIdsValid(bs: seq<Binding>, next: int, p: Binding -> bool)
    requires BindingIdsValid(bs, next)
    ensures BindingIdsValid(Filter(bs, p), next)
  {
    FilterKeepsPairwise(bs, p, (a: Binding, b: Binding) => a.id < b.id);
  }

  /** Keeping only some bindings keeps their references resolving. */
  lemma FilterKeepsRefs(bs: seq<Binding>, p: Binding -> bool, rows: seq<Camera>, kind: CameraKind)
    requires forall i :: 0 <= i < |bs| ==> HasId(rows, RefOf(bs[i], kind))
    ensures forall i :: 0 <= i < |Filter(bs, p)| ==> HasId(rows, RefOf(Filter(bs, p)[i], kind))
  {
    var kept := Filter(bs, p);
    forall i | 0 <= i < |kept|
      ensures HasId(rows, RefOf(kept[i], kind))
    {
      var j :| 0 <= j < |bs| && bs[j] == kept[i];
    }
  }

  /** The cascade: the bindings left reference only cameras that are left. */
  lemma CascadeKeepsRefs(bs: seq<Binding>, rows: seq<Camera>, kind: CameraKind, sel: Selector)
    requires forall i :: 0 <= i < |bs| ==> HasId(rows, RefOf(bs[i], kind))
    ensures var kept := Filter(bs, KeptBinding(rows, kind, sel));
      forall i :: 0 <= i < |kept| ==> HasId(Filter(rows, Unselected(sel)), RefOf(kept[i], kind))
  {
    var kept := Filter(bs, KeptBinding(rows, kind, sel));
    var left := Filter(rows, Unselected(sel));
    forall i | 0 <= i < |kept|
      ensures HasId(left, RefOf(kept[i], kind))
    {
      var b := kept[i];
      assert !Orphaned(b, rows, kind, sel);
      var j :| 0 <= j < |bs| && bs[j] == b;
      var k :| 0 <= k < |rows| && rows[k].id == RefOf(b, kind);
      assert rows[k] in left;
      var m :| 0 <= m < |left| && left[m] == rows[k];
    }
  }

  /** Deleting keeps every constraint: thanks to the cascade no binding is
      left pointing at a missing camera. */
  lemma DeleteKeepsValid(t: Tables, kind: CameraKind, sel: Selector)
    requires TablesValid(t)
    ensures TablesValid(DeleteOutcome(t, kind, sel).tables)
  {
    var rows := Rows(t, kind);
    var left := Filter(rows, Unselected(sel));
    FilterRowsValid(rows, NextId(t, kind), Unselected(sel));
    FilterBindingIdsValid(t.bindings, t.nextBindingId, KeptBinding(rows, kind, sel));
    DeleteResolves(t, kind, sel);
    if kind == RecordCameras {
      forall i | 0 <= i < |left|
        ensures left[i].info.Some?
      {
        var j :| 0 <= j < |rows| && rows[j] == left[i];
      }
    }
  }

  lemma DeleteResolves(t: Tables, kind: CameraKind, sel: Selector)
    requires TablesValid(t)
    ensures BindingsResolve(DeleteOutcome(t, kind, sel).tables)
  {
    if kind == FaceCameras {
      DeleteFacesResolves(t, sel);
    } else {
      DeleteRecordsResolves(t, sel);
    }
  }

  /** Deleting face cameras cascades so that the bindings left resolve. */
  lemma DeleteFacesResolves(t: Tables, sel: Selector)
    requires BindingsResolve(t)
    ensures BindingsResolve(DeleteOutcome(t, FaceCameras, sel).tables)
  {
    var p := KeptBinding(t.faces, FaceCameras, sel);
    var u := DeleteOutcome(t, FaceCameras, sel).tables;
    assert forall i :: 0 <= i < |t.bindings| ==> HasId(t.faces, RefOf(t.bindings[i], FaceCameras));
    assert forall i :: 0 <= i < |t.bindings| ==> HasId(t.records, RefOf(t.bindings[i], RecordCameras));
    CascadeKeepsRefs(t.bindings, t.faces, FaceCameras, sel);
    FilterKeepsRefs(t.bindings, p, t.records, RecordCameras);
    assert u.faces == Filter(t.faces, Unselected(sel)) && u.records == t.records && u.bindings == Filter(t.bindings, p);
  }

  /** Deleting record cameras cascades so that the bindings left resolve. */
  lemma DeleteRecordsResolves(t: Tables, sel: Selector)
    requires BindingsResolve(t)
    ensures BindingsResolve(DeleteOutcome(t, RecordCameras, sel).tables)
  {
    var p := KeptBinding(t.records, RecordCameras, sel);
    var u := DeleteOutcome(t, RecordCameras, sel).tables;
    assert forall i :: 0 <= i < |t.bindings| ==> HasId(t.faces, RefOf(t.bindings[i], FaceCameras));
    assert forall i :: 0 <= i < |t.bindings| ==> HasId(t.records, RefOf(t.bindings[i], RecordCameras));
    CascadeKeepsRefs(t.bindings, t.records, RecordCameras, sel);
    FilterKeepsRefs(t.bindings, p, t.faces, FaceCameras);
    assert u.records == Filter(t.records, Unselected(sel)) && u.faces == t.faces && u.bindings == Filter(t.bindings, p);
  }

  // ---------------------------------------------------------------- BINDINGS

  /** The binding store: insert a binding between two existing cameras.
      Nothing stops the same pair from being bound twice. */
  function BindOutcome(t: Tables, faceId: int, recordId: int): Outcome<int>
  {
    var t1 := t.(nextBindingId := t.nextBindingId + 1);
    if !HasId(t.faces, faceId) || !HasId(t.records, recordId) then Outcome(t1, Err(ForeignKeyViolation))
    else Outcome(t1.(bindings := t.bindings + [Binding(t.nextBindingId, faceId, recordId)]), Ok(t.nextBindingId))
  }

  /** A bind between existing cameras appends one binding with a fresh id
      and changes nothing else. */
  lemma BindMeaning(t: Tables, faceId: int, recordId: int)
    requires TablesValid(t)
    ensures var o := BindOutcome(t, faceId, recordId);
      && TablesValid(o.tables)
      && o.tables.faces == t.faces && o.tables.records == t.records
      && (o.result.Ok? <==> HasId(t.faces, faceId) && HasId(t.records, recordId))
      && (o.result.Ok? ==>
            && o.tables.bindings == t.bindings + [Binding(o.result.value, faceId, recordId)]
            && forall i :: 0 <= i < |t.bindings| ==> t.bindings[i].id != o.result.value)
      && (o.result.Err? ==> o.tables.bindings == t.bindings)
  {
    var o := BindOutcome(t, faceId, recordId);
    if o.result.Ok? {
      var bs := o.tables.bindings;
      assert forall i :: 0 <= i < |t.bindings| ==> bs[i] == t.bindings[i];
      assert BindingIdsValid(bs, o.tables.nextBindingId);
    }
  }

  /** The first binding with the given id, or -1. */
  function BindingIndex(bs: seq<Binding>, mappingId: int): (k: int)
    ensures -1 <= k < |bs|
    ensures k == -1 <==> forall i :: 0 <= i < |bs| ==> bs[i].id != mappingId
    ensures k >= 0 ==> bs[k].id == mappingId && forall i :: 0 <= i < k ==> bs[i].id != mappingId
  {
    if bs == [] then -1
    else if bs[0].id == mappingId then 0
    else
      var k := BindingIndex(bs[1..], mappingId);
      if k == -1 then -1 else k + 1
  }

  function FindBinding(bs: seq<Binding>, mappingId: int): Option<Binding>
  {
    var k := BindingIndex(bs, mappingId);
    if k < 0 then None else Some(bs[k])
  }

  function OtherBinding(mappingId: int): Binding -> bool
  {
    (b: Binding) => b.id != mappingId
  }

  /** The binding store: delete the binding with the given id. */
  function UnbindOutcome(t: Tables, mappingId: int): Outcome<bool>
  {
    var kept := Filter(t.bindings, OtherBinding(mappingId));
    Outcome(t.(bindings := kept), Ok(|kept| < |t.bindings|))
  }

  /** Unbinding removes exactly the binding with that id, reports whether
      there was one, and keeps every constraint. */
  lemma UnbindMeaning(t: Tables, mappingId: int)
    requires TablesValid(t)
    ensures var o := UnbindOutcome(t, mappingId);
      && TablesValid(o.tables)
      && o.tables.faces == t.faces && o.tables.records == t.records
      && (o.result == Ok(FindBinding(t.bindings, mappingId).Some?))
      && (forall b :: b in o.tables.bindings <==> b in t.bindings && b.id != mappingId)
  {
    var o := UnbindOutcome(t, mappingId);
    var bs := o.tables.bindings;
    FilterBindingIdsValid(t.bindings, t.nextBindingId, OtherBinding(mappingId));
    FilterKeepsRefs(t.bindings, OtherBinding(mappingId), t.faces, FaceCameras);
    FilterKeepsRefs(t.bindings, OtherBinding(mappingId), t.records, RecordCameras);
    forall b | b in t.bindings && b.id != mappingId
      ensures b in bs
    {
      var k :| 0 <= k < |t.bindings| && t.bindings[k] == b;
    }
  }

  function Repointed(bs: seq<Binding>, mappingId: int, recordId: int): (r: seq<Binding>)
    ensures |r| == |bs|
    ensures forall i :: 0 <= i < |bs| ==>
      r[i] == if bs[i].id == mappingId then bs[i].(recordCameraId := recordId) else bs[i]
  {
    seq(|bs|, i requires 0 <= i < |bs| =>
      if bs[i].id == mappingId then bs[i].(recordCameraId := recordId) else bs[i])
  }

  /** The binding store: point an existing binding at another record camera;
      the answer is whether the binding existed. */
  function RepointOutcome(t: Tables, mappingId: int, recordId: int): Outcome<bool>
  {
    if FindBinding(t.bindings, mappingId).None? then Outcome(t, Ok(false))
    else if !HasId(t.records, recordId) then Outcome(t, Err(ForeignKeyViolation))
    else Outcome(t.(bindings := Repointed(t.bindings, mappingId, recordId)), Ok(true))
  }

  /** Repointing changes only the record camera of the named binding and
      keeps every constraint. */
  lemma RepointMeaning(t: Tables, mappingId: int, recordId: int)
    requires TablesValid(t)
    ensures var o := RepointOutcome(t, mappingId, recordId);
      && TablesValid(o.tables)
      && o.tables.faces == t.faces && o.tables.records == t.records
      && (o.result == Ok(true) <==> FindBinding(t.bindings, mappingId).Some? && HasId(t.records, recordId))
      && |o.tables.bindings| == |t.bindings|
      && (o.result == Ok(true) ==> forall i :: 0 <= i < |t.bindings| ==>
            o.tables.bindings[i].id == t.bindings[i].id
            && o.tables.bindings[i].faceCameraId == t.bindings[i].faceCameraId
            && o.tables.bindings[i].recordCameraId == (if t.bindings[i].id == mappingId then recordId else t.bindings[i].recordCameraId))
      && (o.result != Ok(true) ==> o.tables == t)
  {
  }

  function Item(b: Binding, face: Camera, record: Camera): BoundCameraItem
  {
    var location := if record.info.Some? then record.info.value else "";
    BoundCameraItem(b.id, face.id, face.cameraIp, record.id, record.cameraIp, location)
  }

  /** One binding joined with the two cameras it names, if both exist. */
  function JoinOne(t: Tables, b: Binding): Option<BoundCameraItem>
  {
    var face := Find(t.faces, ById(b.faceCameraId));
    var record := Find(t.records, ById(b.recordCameraId));
    if face.Some? && record.Some? then Some(Item(b, face.value, record.value)) else None
  }

  /** The join of camera_mapping with both camera tables, in binding order. */
  function Joined(t: Tables, bs: seq<Binding>): (items: seq<BoundCameraItem>)
    ensures |items| <= |bs|
    decreases |bs|
  {
    if bs == [] then []
    else
      var rest := Joined(t, bs[..|bs| - 1]);
      var item := JoinOne(t, bs[|bs| - 1]);
      if item.Some? then rest + [item.value] else rest
  }

  /** When every binding joins, the join lists each binding once, in order. */
  lemma {:induction false} JoinedWhenAllJoin(t: Tables, bs: seq<Binding>)
    requires forall i :: 0 <= i < |bs| ==> JoinOne(t, bs[i]).Some?
    ensures |Joined(t, bs)| == |bs|
    ensures forall i :: 0 <= i < |bs| ==> Joined(t, bs)[i] == JoinOne(t, bs[i]).value
    decreases |bs|
  {
    if bs != [] {
      var init := bs[..|bs| - 1];
      assert forall i :: 0 <= i < |init| ==> bs[i] == init[i];
      JoinedWhenAllJoin(t, init);
      var rest := Joined(t, init);
      var j := Joined(t, bs);
      assert j == rest + [JoinOne(t, bs[|bs| - 1]).value];
      forall i | 0 <= i < |bs|
        ensures j[i] == JoinOne(t, bs[i]).value
      {
        if i < |init| {
          assert j[i] == rest[i];
        }
      }
    }
  }

  /** A binding whose cameras both exist joins with them. */
  lemma JoinOneResolves(t: Tables, b: Binding)
    requires HasId(t.faces, b.faceCameraId) && HasId(t.records, b.recordCameraId)
    ensures Find(t.faces, ById(b.faceCameraId)).Some? && Find(t.records, ById(b.recordCameraId)).Some?
    ensures JoinOne(t, b) == Some(Item(b, Find(t.faces, ById(b.faceCameraId)).value, Find(t.records, ById(b.recordCameraId)).value))
  {
    FoundWhenPresent(t.faces, b.faceCameraId);
    FoundWhenPresent(t.records, b.recordCameraId);
  }

  /** A lookup by an id that is present finds a row. */
  lemma FoundWhenPresent(rows: seq<Camera>, id: int)
    requires HasId(rows, id)
    ensures Find(rows, ById(id)).Some?
  {
    var k :| 0 <= k < |rows| && rows[k].id == id;
    assert Selects(ById(id), rows[k]);
  }

  /** Under the schema every binding joins. */
  lemma EveryBindingJoins(t: Tables)
    requires TablesValid(t)
    ensures forall i :: 0 <= i < |t.bindings| ==> JoinOne(t, t.bindings[i]).Some?
  {
    forall i | 0 <= i < |t.bindings|
      ensures JoinOne(t, t.bindings[i]).Some?
    {
      JoinOneResolves(t, t.bindings[i]);
    }
  }

  /** Under the schema every binding resolves, so the join lists each
      binding once, joined with the cameras it names. */
  lemma JoinedListsEveryBinding(t: Tables)
    requires TablesValid(t)
    ensures |Joined(t, t.bindings)| == |t.bindings|
    ensures forall i :: 0 <= i < |t.bindings| ==>
      && Find(t.faces, ById(t.bindings[i].faceCameraId)).Some?
      && Find(t.records, ById(t.bindings[i].recordCameraId)).Some?
      && Joined(t, t.bindings)[i] == Item(t.bindings[i], Find(t.faces, ById(t.bindings[i].faceCameraId)).value,
                                          Find(t.records, ById(t.bindings[i].recordCameraId)).value)
  {
    forall i | 0 <= i < |t.bindings|
      ensures JoinOne(t, t.bindings[i]).Some?
      ensures Find(t.faces, ById(t.bindings[i].faceCameraId)).Some?
      ensures Find(t.records, ById(t.bindings[i].recordCameraId)).Some?
      ensures JoinOne(t, t.bindings[i]).value == Item(t.bindings[i], Find(t.faces, ById(t.bindings[i].faceCameraId)).value,
                                                      Find(t.records, ById(t.bindings[i].recordCameraId)).value)
    {
      JoinOneResolves(t, t.bindings[i]);
    }
    JoinedWhenAllJoin(t, t.bindings);
  }

  /** The database: the three tables as fields the statements update. */
  class CameraDatabase {
    var faces: seq<Camera>
    var records: seq<Camera>
    var bindings: seq<Binding>
    var nextFaceId: int
    var nextRecordId: int
    var nextBindingId: int

    function State(): Tables
      reads this
    {
      Tables(faces, records, bindings, nextFaceId, nextRecordId, nextBindingId)
    }

    ghost predicate Valid()
      reads this
    {
      TablesValid(State())
    }

    constructor()
      ensures State() == EmptyTables
      ensures Valid()
    {
      faces, records, bindings := [], [], [];
      nextFaceId, nextRecordId, nextBindingId := 1, 1, 1;
    }

    method Commit(t: Tables)
      modifies this
      ensures State() == t
    {
      faces, records, bindings := t.faces, t.records, t.bindings;
      nextFaceId, nextRecordId, nextBindingId := t.nextFaceId, t.nextRecordId, t.nextBindingId;
    }

    /** AddAsync: INSERT ... RETURNING the stored row. */
    method Add(kind: CameraKind, ip: string, info: Option<string>, now: int) returns (r: Result<Camera>)
      requires Valid()
      requires kind == RecordCameras ==> info.Some?
      modifies this
      ensures Valid()
      ensures Outcome(State(), r) == AddOutcome(old(State()), kind, ip, info, now)
    {
      AddMeaning(State(), kind, ip, info, now);
      var o := AddOutcome(State(), kind, ip, info, now);
      Commit(o.tables);
      r := o.result;
    }

    /** GetByIdAsync / GetByIpAsync: reads rows until the first match. */
    method Get(kind: CameraKind, sel: Selector) returns (r: Option<Camera>)
      ensures r == Find(Rows(State(), kind), sel)
    {
      var rows := if kind == FaceCameras then faces else records;
      var i := 0;
      while i < |rows| && !Selects(sel, rows[i])
        invariant 0 <= i <= |rows|
        invariant forall j :: 0 <= j < i ==> !Selects(sel, rows[j])
      {
        i := i + 1;
      }
      r := if i < |rows| then Some(rows[i]) else None;
    }

    /** ListAllAsync: every row, in ascending id order. */
    method ListAll(kind: CameraKind) returns (list: seq<Camera>)
      requires Valid()
      ensures list == Rows(State(), kind)
      ensures forall i, j :: 0 <= i < j < |list| ==> list[i].id < list[j].id
    {
      var rows := if kind == FaceCameras then faces else records;
      list := [];
      var i := 0;
      while i < |rows|
        invariant 0 <= i <= |rows|
        invariant list == rows[..i]
      {
        list := list + [rows[i]];
        i := i + 1;
      }
    }

    /** UpdateByIdAsync / UpdateByIpAsync. */
    method Update(kind: CameraKind, sel: Selector, newIp: Option<string>, newInfo: Option<string>) returns (r: Result<bool>)
      requires Valid()
      modifies this
      ensures Valid()
      ensures Outcome(State(), r) == UpdateOutcome(old(State()), kind, sel, newIp, newInfo)
    {
      if newIp.None? && newInfo.None? {
        return Ok(true);
      }
      UpdateMeaning(State(), kind, sel, newIp, newInfo);
      var o := UpdateOutcome(State(), kind, sel, newIp, newInfo);
      Commit(o.tables);
      r := o.result;
    }

    /** DeleteByIdAsync / DeleteByIpAsync, with the cascade to bindings. */
    method Delete(kind: CameraKind, sel: Selector) returns (removed: bool)
      requires Valid()
      modifies this
      ensures Valid()
      ensures Outcome(State(), Ok(removed)) == DeleteOutcome(old(State()), kind, sel)
    {
      DeleteKeepsValid(State(), kind, sel);
      var o := DeleteOutcome(State(), kind, sel);
      Commit(o.tables);
      removed := o.result.value;
    }

    /** BindAsync: inserts a binding and returns its id. */
    method Bind(faceId: int, recordId: int) returns (r: Result<int>)
      requires Valid()
      modifies this
      ensures Valid()
      ensures Outcome(State(), r) == BindOutcome(old(State()), faceId, recordId)
    {
      BindMeaning(State(), faceId, recordId);
      var o := BindOutcome(State(), faceId, recordId);
      Commit(o.tables);
      r := o.result;
    }

    /** GetBindingByMappingIdAsync. */
    method GetBinding(mappingId: int) returns (r: Option<Binding>)
      ensures r == FindBinding(bindings, mappingId)
    {
      var i := 0;
      while i < |bindings| && bindings[i].id != mappingId
        invariant 0 <= i <= |bindings|
        invariant forall j :: 0 <= j < i ==> bindings[j].id != mappingId
      {
        i := i + 1;
      }
      r := if i < |bindings| then Some(bindings[i]) else None;
    }

    /** UnbindByMappingIdAsync. */
    method Unbind(mappingId: int) returns (removed: bool)
      requires Valid()
      modifies this
      ensures Valid()
      ensures Outcome(State(), Ok(removed)) == UnbindOutcome(old(State()), mappingId)
    {
      UnbindMeaning(State(), mappingId);
      var o := UnbindOutcome(State(), mappingId);
      Commit(o.tables);
      removed := o.result.value;
    }

    /** UpdateRecordCameraIdAsync. */
    method Repoint(mappingId: int, recordId: int) returns (r: Result<bool>)
      requires Valid()
      modifies this
      ensures Valid()
      ensures Outcome(State(), r) == RepointOutcome(old(State()), mappingId, recordId)
    {
      RepointMeaning(State(), mappingId, recordId);
      var o := RepointOutcome(State(), mappingId, recordId);
      Commit(o.tables);
      r := o.result;
    }

    /** ListBindingsAsync: the join, row by row. */
    method ListBindings() returns (items: seq<BoundCameraItem>)
      ensures items == Joined(State(), bindings)
    {
      items := [];
      var i := 0;
      while i < |bindings|
        invariant 0 <= i <= |bindings|
        invariant items == Joined(State(), bindings[..i])
      {
        var b := bindings[i];
        assert bindings[..i + 1][..i] == bindings[..i];
        var face := Find(faces, ById(b.faceCameraId));
        var record := Find(records, ById(b.recordCameraId));
        if face.Some? && record.Some? {
          items := items + [Item(b, face.value, record.value)];
        }
        i := i + 1;
      }
      assert bindings[..i] == bindings;
    }
  }
}
