/** QdrantVectorManager: the argument checks and the create / recreate /
    refuse decisions taken in front of the vector database. The database is
    modelled as a map from collection name to what the manager can learn
    about the collection. */
module VectorCollections {
  import opened Common

  const BlankName := "ArgumentException: collectionName must not be empty"
  const BadName := "ArgumentException: collectionName may contain only letters, digits and underscores"
  const BadVectorSize := "ArgumentException: vectorSize must be a positive integer"
  const SizeMismatch := "InvalidOperationException: collection vector size does not match"
  const EmptyVector := "ArgumentException: vector must not be empty"
  const BadLimit := "ArgumentException: limit must be a positive integer"
  const NoPointIds := "ArgumentNullException: pointIds must not be empty"

  /** The largest value of a C# long. */
  const Int64Max: int := 0x7FFF_FFFF_FFFF_FFFF

  /** What the manager sees of a collection: the vector size read back from
      its configuration (None when it cannot be read) and its point count. */
  datatype Collection = Collection(vectorSize: Option<int>, pointsCount: nat)

  type Collections = map<string, Collection>

  /** A character of the class [a-zA-Z0-9_]. */
  predicate IsNameChar(c: char)
  {
    ('a' <= c <= 'z') || ('A' <= c <= 'Z') || ('0' <= c <= '9') || c == '_'
  }

  predicate AllNameChars(s: string)
  {
    forall i :: 0 <= i < |s| ==> IsNameChar(s[i])
  }

  /** Regex.IsMatch(name, "^[a-zA-Z0-9_]+$") as .NET evaluates it: without
      the Multiline option '$' matches at the very end and also just before
      a final line feed. */
  predicate MatchesAsWritten(name: string)
  {
    (|name| > 0 && AllNameChars(name))
    || (|name| > 1 && name[|name| - 1] == '\n' && AllNameChars(name[..|name| - 1]))
  }

  /** ValidateCollectionName as written. */
  function ValidateNameAsWritten(name: string): (r: Result<()>)
    ensures r.Ok? <==> MatchesAsWritten(name)
    ensures r.Err? ==> (r.error == BlankName <==> IsBlank(name))
    ensures r.Err? ==> r.error == BlankName || r.error == BadName
  {
    if IsBlank(name) then
      assert |name| > 0 ==> !IsNameChar(name[0]);
      assert |name| > 1 ==> name[0] == name[..|name| - 1][0];
      Err(BlankName)
    else if !MatchesAsWritten(name) then Err(BadName)
    else Ok(())
  }

  /** The as-written check lets a name ending in a line feed through,
      though its message says names hold letters, digits and underscores only. */
  lemma TrailingLineFeedAccepted()
    ensures ValidateNameAsWritten("face_collection\n").Ok?
    ensures !AllNameChars("face_collection\n")
  {
    var n := "face_collection\n";
    assert n[0] == 'f';
    assert n[..|n| - 1] == "face_collection";
    assert AllNameChars(n[..|n| - 1]);
    assert !IsNameChar(n[|n| - 1]);
  }

  /** ValidateCollectionName as intended: non-empty, letters, digits and
      underscores only. */
  function ValidateName(name: string): (r: Result<()>)
    ensures r.Ok? <==> |name| > 0 && AllNameChars(name)
    ensures r.Err? ==> (r.error == BlankName <==> IsBlank(name))
    ensures r.Err? ==> r.error == BlankName || r.error == BadName
  {
    if IsBlank(name) then
      assert |name| > 0 ==> !IsNameChar(name[0]);
      Err(BlankName)
    else if !(|name| > 0 && AllNameChars(name)) then Err(BadName)
    else Ok(())
  }

  /** The two checks differ exactly on a valid name followed by a line feed. */
  lemma ValidateNameDiffers(name: string)
    ensures (ValidateNameAsWritten(name).Ok? && !ValidateName(name).Ok?)
            <==> (|name| > 1 && name[|name| - 1] == '\n' && AllNameChars(name[..|name| - 1]))
  {
    if |name| > 1 && name[|name| - 1] == '\n' && AllNameChars(name[..|name| - 1]) {
      assert !IsNameChar(name[|name| - 1]);
      assert !IsWhiteSpace(name[0]) by {
        assert name[0] == name[..|name| - 1][0];
      }
    }
  }

  /** On every other name the two checks give the same answer, error included. */
  lemma ValidateNameAgreesElsewhere(name: string)
    requires !(|name| > 1 && name[|name| - 1] == '\n' && AllNameChars(name[..|name| - 1]))
    ensures ValidateNameAsWritten(name) == ValidateName(name)
  {
    ValidateNameDiffers(name);
  }

  /** The outcome of an operation: the collections afterwards and the result. */
  datatype Outcome<R> = Outcome(collections: Collections, result: Result<R>)

  /** CreateCollectionAsync: a bad name or a non-positive size is refused; an
      existing collection is left alone (false); otherwise it is created (true). */
  function CreateOutcome(cs: Collections, name: string, vectorSize: int): (o: Outcome<bool>)
  {
    match ValidateName(name)
    case Err(e) => Outcome(cs, Err(e))
    case Ok(_) =>
      if vectorSize <= 0 then Outcome(cs, Err(BadVectorSize))
      else if name in cs then Outcome(cs, Ok(false))
      else Outcome(cs[name := Collection(Some(vectorSize), 0)], Ok(true))
  }

  lemma CreateMeaning(cs: Collections, name: string, vectorSize: int)
    ensures var o := CreateOutcome(cs, name, vectorSize);
      && (o.result.Ok? <==> ValidateName(name).Ok? && vectorSize > 0)
      && (o.result == Ok(true) <==> o.result.Ok? && name !in cs)
      && (o.result == Ok(true) ==> o.collections == cs[name := Collection(Some(vectorSize), 0)])
      && (o.result != Ok(true) ==> o.collections == cs)
      && (o.result.Ok? ==> name in o.collections)
  {
  }

  /** EnsureCollectionAsync: create an absent collection (true); recreate,
      emptied, one whose known size differs (true) when asked to, else
      refuse; leave one of matching or unknown size alone (false). */
  function EnsureOutcome(cs: Collections, name: string, vectorSize: int,
                         recreateOnMismatch: bool): (o: Outcome<bool>)
  {
    match ValidateName(name)
    case Err(e) => Outcome(cs, Err(e))
    case Ok(_) =>
      if vectorSize <= 0 then Outcome(cs, Err(BadVectorSize))
      else if name !in cs then Outcome(cs[name := Collection(Some(vectorSize), 0)], Ok(true))
      else
        var existing := cs[name].vectorSize;
        if existing.Some? && existing.value != vectorSize then
          if recreateOnMismatch then Outcome(cs[name := Collection(Some(vectorSize), 0)], Ok(true))
          else Outcome(cs, Err(SizeMismatch))
        else Outcome(cs, Ok(false))
  }

  lemma EnsureMeaning(cs: Collections, name: string, vectorSize: int, recreateOnMismatch: bool)
    requires ValidateName(name).Ok? && vectorSize > 0
    ensures var o := EnsureOutcome(cs, name, vectorSize, recreateOnMismatch);
      var mismatch := name in cs && cs[name].vectorSize.Some? && cs[name].vectorSize.value != vectorSize;
      && (o.result == Err(SizeMismatch) <==> mismatch && !recreateOnMismatch)
      && (o.result == Ok(true) <==> name !in cs || (mismatch && recreateOnMismatch))
      && (o.result == Ok(true) ==> o.collections == cs[name := Collection(Some(vectorSize), 0)])
      && (o.result != Ok(true) ==> o.collections == cs)
      && (o.result.Ok? ==> name in o.collections)
      && (o.result.Ok? ==> (o.collections[name].vectorSize.None?
                            || o.collections[name].vectorSize.value == vectorSize))
  {
  }

  /** Once ensured, a collection is left alone by the same call again. */
  lemma EnsureIsIdempotent(cs: Collections, name: string, vectorSize: int, recreateOnMismatch: bool)
    requires EnsureOutcome(cs, name, vectorSize, recreateOnMismatch).result.Ok?
    ensures var cs1 := EnsureOutcome(cs, name, vectorSize, recreateOnMismatch).collections;
      EnsureOutcome(cs1, name, vectorSize, recreateOnMismatch) == Outcome(cs1, Ok(false))
  {
  }

  /** ExistsAsync. */
  function ExistsOutcome(cs: Collections, name: string): (r: Result<bool>)
    ensures r.Ok? <==> ValidateName(name).Ok?
    ensures r.Ok? ==> (r.value <==> name in cs)
  {
    match ValidateName(name)
    case Err(e) => Err(e)
    case Ok(_) => Ok(name in cs)
  }

  /** GetCollectionPointsCountAsync: 0 for an absent collection, and 0 when
      the count does not fit a long (the conversion throws and is caught). */
  function PointsCount(cs: Collections, name: string): (r: Result<int>)
    ensures r.Ok? <==> ValidateName(name).Ok?
    ensures r.Ok? ==> 0 <= r.value <= Int64Max
    ensures r.Ok? && name !in cs ==> r.value == 0
    ensures r.Ok? && name in cs && cs[name].pointsCount <= Int64Max ==> r.value == cs[name].pointsCount
  {
    match ValidateName(name)
    case Err(e) => Err(e)
    case Ok(_) =>
      if name !in cs then Ok(0)
      else if cs[name].pointsCount > Int64Max then Ok(0)
      else Ok(cs[name].pointsCount)
  }

  /** The argument checks of SearchAsync, in their order: name, then a null
      or empty vector, then a non-positive limit. */
  function SearchCheck(name: string, vector: Option<seq<real>>, limit: int): (r: Result<()>)
    ensures r.Ok? <==> ValidateName(name).Ok? && vector.Some? && |vector.value| > 0 && limit > 0
    ensures ValidateName(name).Ok? && (vector.None? || |vector.value| == 0) ==> r == Err(EmptyVector)
    ensures ValidateName(name).Ok? && vector.Some? && |vector.value| > 0 && limit <= 0 ==> r == Err(BadLimit)
  {
    match ValidateName(name)
    case Err(e) => Err(e)
    case Ok(_) =>
      if vector.None? || |vector.value| == 0 then Err(EmptyVector)
      else if limit <= 0 then Err(BadLimit)
      else Ok(())
  }

  /** The argument checks of DeletePointsAsync: name, then a null or empty
      id list. */
  function DeletePointsCheck(name: string, pointIds: Option<seq<string>>): (r: Result<()>)
    ensures r.Ok? <==> ValidateName(name).Ok? && pointIds.Some? && |pointIds.value| > 0
    ensures ValidateName(name).Ok? && (pointIds.None? || |pointIds.value| == 0) ==> r == Err(NoPointIds)
  {
    match ValidateName(name)
    case Err(e) => Err(e)
    case Ok(_) =>
      if pointIds.None? || |pointIds.value| == 0 then Err(NoPointIds)
      else Ok(())
  }

  /** The manager over the database's collections. */
  class VectorManager {
    var collections: Collections

    constructor(initial: Collections)
      ensures collections == initial
    {
      collections := initial;
    }

    /** CreateCollectionAsync: exists, then create. */
    method CreateCollection(name: string, vectorSize: int) returns (r: Result<bool>)
      modifies this
      ensures Outcome(collections, r) == CreateOutcome(old(collections), name, vectorSize)
    {
      var v := ValidateName(name);
      if v.Err? {
        return Err(v.error);
      }
      if vectorSize <= 0 {
        return Err(BadVectorSize);
      }
      var present := Exists(name);
      if present.value {
        return Ok(false);
      }
      collections := collections[name := Collection(Some(vectorSize), 0)];
      r := Ok(true);
    }

    /** EnsureCollectionAsync: exists, then create, or read the size and
        recreate or throw. */
    method EnsureCollection(name: string, vectorSize: int, recreateOnMismatch: bool)
      returns (r: Result<bool>)
      modifies this
      ensures Outcome(collections, r) == EnsureOutcome(old(collections), name, vectorSize, recreateOnMismatch)
    {
      var v := ValidateName(name);
      if v.Err? {
        return Err(v.error);
      }
      if vectorSize <= 0 {
        return Err(BadVectorSize);
      }
      var present := Exists(name);
      if !present.value {
        collections := collections[name := Collection(Some(vectorSize), 0)];
        return Ok(true);
      }
      var existingSize := collections[name].vectorSize;
      if existingSize.Some? && existingSize.value != vectorSize {
        if recreateOnMismatch {
          collections := collections[name := Collection(Some(vectorSize), 0)];
          return Ok(true);
        }
        return Err(SizeMismatch);
      }
      r := Ok(false);
    }

    /** ExistsAsync. */
    method Exists(name: string) returns (r: Result<bool>)
      ensures r == ExistsOutcome(collections, name)
    {
      var v := ValidateName(name);
      if v.Err? {
        return Err(v.error);
      }
      r := Ok(name in collections);
    }

    /** GetCollectionPointsCountAsync. */
    method GetCollectionPointsCount(name: string) returns (r: Result<int>)
      ensures r == PointsCount(collections, name)
    {
      var v := ValidateName(name);
      if v.Err? {
        return Err(v.error);
      }
      var present := Exists(name);
      if !present.value {
        return Ok(0);
      }
      var count := collections[name].pointsCount;
      if count > Int64Max {
        return Ok(0);
      }
      r := Ok(count);
    }
  }
}
