/** The track_records table and the repository that reads and writes it.
    Rows are kept in insertion order; ids come from a bigserial counter. */
module TrackStore {
  import opened Common

  const Int32Min: int := -0x8000_0000
  const Int32Max: int := 0x7FFF_FFFF

  /** One stored row; the nullable columns snap_location, record_camera_ip
      and record_end_time are options. */
  datatype TrackRow = TrackRow(
    id: int,
    personId: Guid,
    snapTime: int,
    snapLocation: Option<string>,
    snapCameraIp: string,
    recordCameraIp: Option<string>,
    recordStartTime: int,
    recordEndTime: Option<int>,
    createdAt: int)

  /** The TrackRecord entity handed to and returned by the repository. */
  datatype TrackRecord = TrackRecord(
    id: int,
    personId: Guid,
    snapTimeUtc: int,
    snapLocation: string,
    snapCameraIp: string,
    recordCameraIp: string,
    recordStartTimeUtc: int,
    recordEndTimeUtc: Option<int>,
    createdAtUtc: int)

  datatype TrackPage = TrackPage(items: seq<TrackRecord>, total: int)

  /** The row InsertTrackAsync writes for record under the id the database assigns. */
  function RowOf(id: int, record: TrackRecord): TrackRow
  {
    TrackRow(id, record.personId, record.snapTimeUtc, Some(record.snapLocation), record.snapCameraIp,
             Some(record.recordCameraIp), record.recordStartTimeUtc, record.recordEndTimeUtc, record.createdAtUtc)
  }

  /** The record the readers build from a row: a NULL snap_location or
      record_camera_ip reads back as "". */
  function ReadRecord(row: TrackRow): (r: TrackRecord)
    ensures r.snapLocation == (if row.snapLocation.Some? then row.snapLocation.value else "")
    ensures r.recordCameraIp == (if row.recordCameraIp.Some? then row.recordCameraIp.value else "")
  {
    TrackRecord(row.id, row.personId, row.snapTime,
                if row.snapLocation.Some? then row.snapLocation.value else "",
                row.snapCameraIp,
                if row.recordCameraIp.Some? then row.recordCameraIp.value else "",
                row.recordStartTime, row.recordEndTime, row.createdAt)
  }

  /** Reading an inserted row gives back the inserted record under its new id. */
  lemma ReadInsertedRow(id: int, record: TrackRecord)
    ensures ReadRecord(RowOf(id, record)) == record.(id := id)
  {
  }

  function ReadAll(rows: seq<TrackRow>): (r: seq<TrackRecord>)
    ensures |r| == |rows|
    ensures forall i :: 0 <= i < |rows| ==> r[i] == ReadRecord(rows[i])
  {
    seq(|rows|, i requires 0 <= i < |rows| => ReadRecord(rows[i]))
  }

  /** The reader loop: one record per row from lo up to hi. */
  method ReadRange(sorted: seq<TrackRow>, lo: int, hi: int) returns (items: seq<TrackRecord>)
    requires 0 <= lo <= hi <= |sorted|
    ensures items == ReadAll(sorted[lo..hi])
  {
    items := [];
    var i := lo;
    while i < hi
      invariant lo <= i <= hi
      invariant items == ReadAll(sorted[lo..i])
    {
      ReadAllStep(sorted, lo, i);
      items := items + [ReadRecord(sorted[i])];
      i := i + 1;
    }
  }

  /** Reading one more row of a slice appends its record. */
  lemma ReadAllStep(rows: seq<TrackRow>, lo: int, i: int)
    requires 0 <= lo <= i < |rows|
    ensures ReadAll(rows[lo..i + 1]) == ReadAll(rows[lo..i]) + [ReadRecord(rows[i])]
  {
    assert rows[lo..i + 1] == rows[lo..i] + [rows[i]];
  }

  function OfPerson(p: Guid): TrackRow -> bool
  {
    (row: TrackRow) => row.personId == p
  }

  function NotOfPerson(p: Guid): TrackRow -> bool
  {
    (row: TrackRow) => row.personId != p
  }

  /** The index of the row ORDER BY snap_time DESC LIMIT 1 returns for p, or
      -1: a row of p with the greatest snap time; among equal snap times the
      model takes the one inserted last (the database leaves the tie open). */
  function LatestIndex(rows: seq<TrackRow>, p: Guid): (r: int)
    ensures -1 <= r < |rows|
    ensures r == -1 <==> forall i :: 0 <= i < |rows| ==> rows[i].personId != p
    ensures r >= 0 ==> rows[r].personId == p
    ensures r >= 0 ==> forall i :: 0 <= i < |rows| && rows[i].personId == p ==> rows[i].snapTime <= rows[r].snapTime
    ensures r >= 0 ==> forall i :: r < i < |rows| && rows[i].personId == p ==> rows[i].snapTime < rows[r].snapTime
    decreases |rows|
  {
    if rows == [] then -1
    else
      var prev := LatestIndex(rows[..|rows| - 1], p);
      var last := rows[|rows| - 1];
      if last.personId == p && (prev == -1 || rows[prev].snapTime <= last.snapTime) then |rows| - 1
      else prev
  }

  /** One more row either becomes the person's latest or leaves it where it was. */
  lemma LatestIndexStep(rows: seq<TrackRow>, i: int, p: Guid)
    requires 0 <= i < |rows|
    ensures var prev := LatestIndex(rows[..i], p);
      LatestIndex(rows[..i + 1], p) ==
        if rows[i].personId == p && (prev == -1 || rows[prev].snapTime <= rows[i].snapTime) then i else prev
  {
    assert rows[..i + 1][..i] == rows[..i];
  }

  function Latest(rows: seq<TrackRow>, p: Guid): Option<TrackRecord>
  {
    var k := LatestIndex(rows, p);
    if k < 0 then None else Some(ReadRecord(rows[k]))
  }

  /** UPDATE track_records SET record_end_time = t WHERE id = id. */
  function WithEndTime(rows: seq<TrackRow>, id: int, t: int): (r: seq<TrackRow>)
    ensures |r| == |rows|
    ensures forall i :: 0 <= i < |rows| ==>
      r[i] == if rows[i].id == id then rows[i].(recordEndTime := Some(t)) else rows[i]
  {
    seq(|rows|, i requires 0 <= i < |rows| =>
      if rows[i].id == id then rows[i].(recordEndTime := Some(t)) else rows[i])
  }

  /** Setting an end time changes neither owners nor snap times, so the latest
      row of every person stays the same row. */
  lemma WithEndTimeKeepsLatest(rows: seq<TrackRow>, id: int, t: int, p: Guid)
    ensures LatestIndex(WithEndTime(rows, id, t), p) == LatestIndex(rows, p)
  {
    LatestIndexDependsOnKeys(rows, WithEndTime(rows, id, t), p);
  }

  lemma {:induction false} LatestIndexDependsOnKeys(a: seq<TrackRow>, b: seq<TrackRow>, p: Guid)
    requires |a| == |b|
    requires forall i :: 0 <= i < |a| ==> a[i].personId == b[i].personId && a[i].snapTime == b[i].snapTime
    ensures LatestIndex(a, p) == LatestIndex(b, p)
    decreases |a|
  {
    if a != [] {
      LatestIndexDependsOnKeys(a[..|a| - 1], b[..|b| - 1], p);
    }
  }

  /** The two's-complement wrap of a C# int expression. */
  function Wrap32(x: int): (r: int)
    ensures Int32Min <= r <= Int32Max
    ensures Int32Min <= x <= Int32Max ==> r == x
  {
    (x - Int32Min) % 0x1_0000_0000 + Int32Min
  }

  /** (pageNum - 1) * pageSize, evaluated in unchecked 32-bit arithmetic. */
  function PageOffset(pageNum: int, pageSize: int): int
  {
    Wrap32(Wrap32(pageNum - 1) * pageSize)
  }

  /** The person's rows in ORDER BY snap_time DESC order (stable among equal times). */
  function ByTimeDescending(rows: seq<TrackRow>, p: Guid): seq<TrackRow>
  {
    SortBy(Filter(rows, OfPerson(p)), NegSnapTime)
  }

  function NegSnapTime(row: TrackRow): int { -row.snapTime }

  /** The result of GetTracksByPersonAsync: the count, then OFFSET/LIMIT over
      the ordered rows; PostgreSQL rejects a negative OFFSET or LIMIT. */
  function PageOf(rows: seq<TrackRow>, p: Guid, pageNum: int, pageSize: int): Result<TrackPage>
  {
    var offset := PageOffset(pageNum, pageSize);
    if offset < 0 then Err("OFFSET must not be negative")
    else if pageSize < 0 then Err("LIMIT must not be negative")
    else
      Ok(TrackPage(Slice(ByTimeDescending(rows, p), offset, pageSize), Count(rows, OfPerson(p))))
  }

  /** OFFSET offset LIMIT size over the ordered rows, read as records. */
  function Slice(sorted: seq<TrackRow>, offset: int, size: int): seq<TrackRecord>
    requires offset >= 0 && size >= 0
  {
    ReadAll(sorted[Min(offset, |sorted|)..Min(offset + size, |sorted|)])
  }

  /** The ordered listing holds only rows of the person, newest first. */
  lemma ByTimeDescendingProps(rows: seq<TrackRow>, p: Guid)
    ensures var sorted := ByTimeDescending(rows, p);
      && (forall i :: 0 <= i < |sorted| ==> sorted[i].personId == p)
      && (forall i, j :: 0 <= i < j < |sorted| ==> sorted[i].snapTime >= sorted[j].snapTime)
      && multiset(sorted) == multiset(Filter(rows, OfPerson(p)))
  {
    var sorted := ByTimeDescending(rows, p);
    var persons := Filter(rows, OfPerson(p));
    forall i | 0 <= i < |sorted|
      ensures sorted[i].personId == p
    {
      assert sorted[i] in multiset(persons);
      var k :| 0 <= k < |persons| && persons[k] == sorted[i];
      assert OfPerson(p)(persons[k]);
    }
    forall i, j | 0 <= i < j < |sorted|
      ensures sorted[i].snapTime >= sorted[j].snapTime
    {
      assert NegSnapTime(sorted[i]) <= NegSnapTime(sorted[j]);
    }
  }

  /** A page holds at most pageSize records, all of the person, newest first;
      item i is the (offset + i)-th row of the ordered listing, and the total
      counts every row of the person. */
  lemma PageContents(rows: seq<TrackRow>, p: Guid, pageNum: int, pageSize: int)
    requires PageOf(rows, p, pageNum, pageSize).Ok?
    ensures var page := PageOf(rows, p, pageNum, pageSize).value;
      var sorted := ByTimeDescending(rows, p);
      var offset := PageOffset(pageNum, pageSize);
      && page.total == Count(rows, OfPerson(p))
      && |page.items| <= pageSize
      && |page.items| == Min(pageSize, Max(0, |sorted| - offset))
      && (forall i :: 0 <= i < |page.items| ==>
            offset + i < |sorted| && page.items[i] == ReadRecord(sorted[offset + i]))
      && (forall i :: 0 <= i < |page.items| ==> page.items[i].personId == p)
      && (forall i, j :: 0 <= i < j < |page.items| ==> page.items[i].snapTimeUtc >= page.items[j].snapTimeUtc)
  {
    var sorted := ByTimeDescending(rows, p);
    var offset := PageOffset(pageNum, pageSize);
    PageOfOk(rows, p, pageNum, pageSize);
    var page := PageOf(rows, p, pageNum, pageSize).value;
    assert page.items == Slice(sorted, offset, pageSize) && page.total == Count(rows, OfPerson(p));
    ByTimeDescendingProps(rows, p);
    SliceProps(sorted, p, offset, pageSize);
  }

  lemma SliceProps(sorted: seq<TrackRow>, p: Guid, offset: int, size: int)
    requires offset >= 0 && size >= 0
    requires forall i :: 0 <= i < |sorted| ==> sorted[i].personId == p
    requires forall i, j :: 0 <= i < j < |sorted| ==> sorted[i].snapTime >= sorted[j].snapTime
    ensures var items := Slice(sorted, offset, size);
      && |items| <= size
      && |items| == Min(size, Max(0, |sorted| - offset))
      && (forall i :: 0 <= i < |items| ==> offset + i < |sorted| && items[i] == ReadRecord(sorted[offset + i]))
      && (forall i :: 0 <= i < |items| ==> items[i].personId == p)
      && (forall i, j :: 0 <= i < j < |items| ==> items[i].snapTimeUtc >= items[j].snapTimeUtc)
  {
    var lo := Min(offset, |sorted|);
    var hi := Min(offset + size, |sorted|);
    var items := ReadAll(sorted[lo..hi]);
    assert |items| > 0 ==> lo == offset;
    forall i | 0 <= i < |items|
      ensures offset + i < |sorted| && items[i] == ReadRecord(sorted[offset + i])
    {
      assert sorted[lo..hi][i] == sorted[offset + i];
    }
    forall i, j | 0 <= i < j < |items|
      ensures items[i].snapTimeUtc >= items[j].snapTimeUtc
    {
      assert items[i] == ReadRecord(sorted[offset + i]) && items[j] == ReadRecord(sorted[offset + j]);
    }
  }

  lemma PageOfOk(rows: seq<TrackRow>, p: Guid, pageNum: int, pageSize: int)
    requires PageOf(rows, p, pageNum, pageSize).Ok?
    ensures var sorted := ByTimeDescending(rows, p);
      var offset := PageOffset(pageNum, pageSize);
      && offset >= 0 && pageSize >= 0
      && PageOf(rows, p, pageNum, pageSize).value == TrackPage(Slice(sorted, offset, pageSize), Count(rows, OfPerson(p)))
  {
  }

  /** Page numbers from 1 with a non-negative size whose offset fits in an int never fail. */
  lemma PageInRange(rows: seq<TrackRow>, p: Guid, pageNum: int, pageSize: int)
    requires 1 <= pageNum <= Int32Max && 0 <= pageSize <= Int32Max
    requires (pageNum - 1) * pageSize <= Int32Max
    ensures PageOf(rows, p, pageNum, pageSize).Ok?
    ensures PageOffset(pageNum, pageSize) == (pageNum - 1) * pageSize
  {
    var a := pageNum - 1;
    assert Wrap32(a) == a;
    var prod := a * pageSize;
    ProductNonNegative(a, pageSize);
    assert Wrap32(prod) == prod;
    assert PageOffset(pageNum, pageSize) == Wrap32(prod);
  }

  /** The sign step of PageInRange, kept apart from the wrap-around. */
  lemma ProductNonNegative(a: int, b: int)
    requires 0 <= a && 0 <= b
    ensures 0 <= a * b
  {
  }

  /** Removing the rows of p leaves exactly the rows of every other person, in order. */
  lemma {:induction false} DeleteKeepsOthers(rows: seq<TrackRow>, p: Guid, q: Guid)
    requires q != p
    ensures Filter(Filter(rows, NotOfPerson(p)), OfPerson(q)) == Filter(rows, OfPerson(q))
    decreases |rows|
  {
    if rows != [] {
      var init := rows[..|rows| - 1];
      var last := rows[|rows| - 1];
      DeleteKeepsOthers(init, p, q);
      var kept := Filter(rows, NotOfPerson(p));
      if NotOfPerson(p)(last) {
        assert kept == Filter(init, NotOfPerson(p)) + [last];
        assert kept[..|kept| - 1] == Filter(init, NotOfPerson(p));
      } else {
        assert kept == Filter(init, NotOfPerson(p));
      }
    }
  }

  /** Ids grow with insertion order and stay below the bigserial counter. */
  predicate TableValid(rows: seq<TrackRow>, nextId: int)
  {
    && 1 <= nextId
    && (forall i :: 0 <= i < |rows| ==> 1 <= rows[i].id < nextId)
    && (forall i, j :: 0 <= i < j < |rows| ==> rows[i].id < rows[j].id)
  }

  class TrackTable {
    var rows: seq<TrackRow>
    var nextId: int

    ghost predicate Valid()
      reads this
    {
      TableValid(rows, nextId)
    }

    constructor ()
      ensures Valid() && rows == [] && nextId == 1
    {
      rows := [];
      nextId := 1;
    }

    /** InsertTrackAsync: one new row carrying the record's fields; every other row is unchanged. */
    method InsertTrack(record: TrackRecord)
      requires Valid()
      modifies this
      ensures Valid()
      ensures rows == old(rows) + [RowOf(old(nextId), record)]
      ensures nextId == old(nextId) + 1
    {
      rows := rows + [RowOf(nextId, record)];
      nextId := nextId + 1;
    }

    /** GetLatestTrackAsync: the scan keeps the latest row of the person seen so far. */
    method GetLatestTrack(p: Guid) returns (latest: Option<TrackRecord>)
      ensures latest == Latest(rows, p)
    {
      var best := -1;
      var i := 0;
      while i < |rows|
        invariant 0 <= i <= |rows|
        invariant best == LatestIndex(rows[..i], p)
      {
        LatestIndexStep(rows, i, p);
        if rows[i].personId == p && (best == -1 || rows[best].snapTime <= rows[i].snapTime) {
          best := i;
        }
        i := i + 1;
      }
      assert rows[..i] == rows;
      if best < 0 {
        return None;
      }
      return Some(ReadRecord(rows[best]));
    }

    /** UpdateTrackEndTimeAsync: only record_end_time of the row with this id changes. */
    method UpdateTrackEndTime(id: int, endTime: int)
      requires Valid()
      modifies this
      ensures Valid()
      ensures rows == WithEndTime(old(rows), id, endTime) && nextId == old(nextId)
    {
      rows := WithEndTime(rows, id, endTime);
    }

    /** GetTracksByPersonAsync: the count, then the reader loop over the requested page. */
    method GetTracksByPerson(p: Guid, pageNum: int, pageSize: int) returns (r: Result<TrackPage>)
      requires Int32Min <= pageNum <= Int32Max && Int32Min <= pageSize <= Int32Max
      ensures r == PageOf(rows, p, pageNum, pageSize)
    {
      var total := Count(rows, OfPerson(p));
      var offset := PageOffset(pageNum, pageSize);
      if offset < 0 {
        return Err("OFFSET must not be negative");
      }
      if pageSize < 0 {
        return Err("LIMIT must not be negative");
      }
      var sorted := ByTimeDescending(rows, p);
      var items := ReadRange(sorted, Min(offset, |sorted|), Min(offset + pageSize, |sorted|));
      return Ok(TrackPage(items, total));
    }

    /** DeleteTracksByPersonIdAsync: removes exactly the person's rows and reports how many. */
    method DeleteTracksByPersonId(p: Guid) returns (removed: int)
      requires Valid()
      modifies this
      ensures Valid()
      ensures rows == Filter(old(rows), NotOfPerson(p)) && nextId == old(nextId)
      ensures removed == Count(old(rows), OfPerson(p))
    {
      FilterComplementSize(rows, OfPerson(p), NotOfPerson(p));
      var kept := Filter(rows, NotOfPerson(p));
      FilterKeepsPairwise(rows, NotOfPerson(p), (a: TrackRow, b: TrackRow) => a.id < b.id);
      removed := |rows| - |kept|;
      rows := kept;
    }
  }
}
