/** The folder snapshot source: each poll lists the image files of the watched
    folder, keeps the twenty oldest, reads every file whose (last write time,
    length) fingerprint is new, and forgets fingerprints of files no longer
    listed.  The file system is an observation map: for every path it records
    what each probe of one poll sees. */
module SnapshotSource {
  import opened Common

  /** Files handled per poll. */
  const MaxBatchSize: nat := 20
  /** Files larger than 10 MiB are fingerprinted and skipped. */
  const MaxFileBytes: int := 10 * 1024 * 1024
  /** Read attempts per file. */
  const MaxReadRetry: nat := 3
  /** File.GetLastWriteTimeUtc of a path that does not exist (1601-01-01), in ticks. */
  const AbsentFileTimeUtc: int := 504911232000000000
  const Int64Max: int := 0x7FFF_FFFF_FFFF_FFFF
  const Format17: string := "yyyyMMddHHmmssfff"
  const Format14: string := "yyyyMMddHHmmss"

  datatype FolderOptions = FolderOptions(defaultCameraName: string, defaultLocation: string)

  /** What the metadata parser needs from outside: the options, DateTime.TryParseExact
      (text, format) giving a local time, and ToUniversalTime. */
  datatype MetaContext = MetaContext(
    options: FolderOptions,
    tryParseExact: (string, string) -> Option<int>,
    toUniversalTime: int -> int)

  datatype Fingerprint = Fingerprint(lastWriteUtc: int, length: int)

  /** The outcome of one read attempt: the existence check fails, the read
      returns bytes, FileNotFoundException, IOException (and whether the file
      still exists afterwards), or UnauthorizedAccessException. */
  datatype ReadAttempt = Gone | Read(data: seq<byte>) | NotFound | IoFailure(stillExists: bool) | AccessDenied

  /** What one poll observes about one path, probe by probe. */
  datatype FileObs = FileObs(
    existsAtStart: bool,
    lastWriteUtc: int,
    existsAfterStat: bool,
    length: Option<int>,
    existsBeforeRead: bool,
    attempt: nat -> ReadAttempt,
    creationUtc: int)

  datatype FileMeta = FileMeta(captureTimeUtc: int, cameraIp: string, cameraName: string, location: string, gender: int)

  datatype Snapshot = Snapshot(
    imageBytes: seq<byte>,
    captureTimeUtc: int,
    filePath: string,
    cameraIp: string,
    cameraName: string,
    location: string,
    gender: int)

  datatype StepResult = StepResult(emitted: Option<Snapshot>, fingerprints: map<string, Fingerprint>)
  datatype PollState = PollState(emitted: seq<Snapshot>, fingerprints: map<string, Fingerprint>)

  // ---------------------------------------------------------------- file names

  predicate IsDirSep(c: char) { c == '/' || c == '\\' }

  /** The last index whose character satisfies p, or -1. */
  function LastIndexWhere(s: string, p: char -> bool): (r: int)
    ensures -1 <= r < |s|
    ensures r >= 0 ==> p(s[r])
    ensures forall k :: r < k < |s| ==> !p(s[k])
    decreases |s|
  {
    if s == [] then -1
    else if p(s[|s| - 1]) then |s| - 1
    else LastIndexWhere(s[..|s| - 1], p)
  }

  predicate IsDot(c: char) { c == '.' }

  /** The last index is pinned down by what it finds and what follows it. */
  lemma {:induction false} LastIndexIs(s: string, p: char -> bool, r: int)
    requires -1 <= r < |s|
    requires r >= 0 ==> p(s[r])
    requires forall k :: r < k < |s| ==> !p(s[k])
    ensures LastIndexWhere(s, p) == r
    decreases |s|
  {
    if s != [] && r < |s| - 1 {
      var init := s[..|s| - 1];
      assert forall k :: r < k < |init| ==> init[k] == s[k];
      LastIndexIs(init, p, r);
    }
  }

  /** Path.GetFileNameWithoutExtension: the part after the last directory
      separator, cut at its last '.'. */
  function FileNameWithoutExtension(path: string): (r: string)
    ensures forall k :: 0 <= k < |r| ==> !IsDirSep(r[k])
  {
    StripExtension(path[LastIndexWhere(path, IsDirSep) + 1..])
  }

  /** A file name cut at its last '.', if it has one. */
  function StripExtension(name: string): (r: string)
    ensures |r| <= |name| && r == name[..|r|]
  {
    var dot := LastIndexWhere(name, IsDot);
    if dot < 0 then name else name[..dot]
  }

  /** A piece that Split with RemoveEmptyEntries can return. */
  predicate IsToken(t: string, sep: char)
  {
    t != [] && sep !in t
  }

  /** string.Split(sep, StringSplitOptions.RemoveEmptyEntries). */
  function SplitNonEmpty(s: string, sep: char): seq<string>
    decreases |s|
  {
    var k := IndexOf(s, sep);
    if k < 0 then (if s == [] then [] else [s])
    else
      var rest := SplitNonEmpty(s[k + 1..], sep);
      if k == 0 then rest
      else
        [s[..k]] + rest
  }

  /** Split yields non-empty, separator-free tokens. */
  lemma {:induction false} SplitTokens(s: string, sep: char)
    ensures forall i :: 0 <= i < |SplitNonEmpty(s, sep)| ==> IsToken(SplitNonEmpty(s, sep)[i], sep)
    decreases |s|
  {
    var k := IndexOf(s, sep);
    if k >= 0 {
      SplitTokens(s[k + 1..], sep);
    }
  }

  /** string.Join(sep, parts). */
  function JoinWith(parts: seq<string>, sep: char): string
    decreases |parts|
  {
    if |parts| == 0 then []
    else if |parts| == 1 then parts[0]
    else parts[0] + [sep] + JoinWith(parts[1..], sep)
  }

  lemma IndexOfAfterPrefix(a: string, c: char, b: string)
    requires c !in a
    ensures IndexOf(a + [c] + b, c) == |a|
  {
    var s := a + [c] + b;
    assert s[..|a|] == a;
    assert s[|a|] == c;
  }

  /** A separator after a non-empty first token splits that token off. */
  lemma SplitAtFirst(s: string, sep: char)
    requires IndexOf(s, sep) > 0
    ensures SplitNonEmpty(s, sep) == [s[..IndexOf(s, sep)]] + SplitNonEmpty(s[IndexOf(s, sep) + 1..], sep)
  {
  }

  /** Splitting a join of non-empty, separator-free tokens gives the tokens back. */
  lemma {:induction false} SplitJoin(parts: seq<string>, sep: char)
    requires forall i :: 0 <= i < |parts| ==> IsToken(parts[i], sep)
    ensures SplitNonEmpty(JoinWith(parts, sep), sep) == parts
    decreases |parts|
  {
    if |parts| == 1 {
      assert IndexOf(parts[0], sep) == -1;
    } else if |parts| > 1 {
      var rest := JoinWith(parts[1..], sep);
      IndexOfAfterPrefix(parts[0], sep, rest);
      var s := parts[0] + [sep] + rest;
      SplitAtFirst(s, sep);
      assert s[|parts[0]| + 1..] == rest;
      assert s[..|parts[0]|] == parts[0];
      assert forall i :: 0 <= i < |parts| - 1 ==> parts[1..][i] == parts[i + 1];
      SplitJoin(parts[1..], sep);
      assert [parts[0]] + parts[1..] == parts;
    }
  }

  // ------------------------------------------------------------ long.TryParse

  predicate IsDigit(c: char) { '0' <= c <= '9' }
  predicate AllDigits(s: string) { forall k :: 0 <= k < |s| ==> IsDigit(s[k]) }

  /** The white space NumberStyles.Integer allows around a number. */
  predicate IsNumberWhite(c: char) { c == ' ' || ('\t' <= c <= '\r') }

  function StripNumberWhite(s: string): (r: string)
    ensures |r| <= |s|
    decreases |s|
  {
    if s != [] && IsNumberWhite(s[0]) then StripNumberWhite(s[1..])
    else if s != [] && IsNumberWhite(s[|s| - 1]) then StripNumberWhite(s[..|s| - 1])
    else s
  }

  function DigitsValue(s: string): nat
    requires AllDigits(s)
    decreases |s|
  {
    if s == [] then 0 else DigitsValue(s[..|s| - 1]) * 10 + (s[|s| - 1] as int - '0' as int)
  }

  function Pow10(n: nat): nat { if n == 0 then 1 else 10 * Pow10(n - 1) }

  lemma {:induction false} DigitsValueBound(s: string)
    requires AllDigits(s)
    ensures DigitsValue(s) < Pow10(|s|)
    decreases |s|
  {
    if s != [] {
      DigitsValueBound(s[..|s| - 1]);
    }
  }

  /** long.TryParse(s, out _) under NumberStyles.Integer: optional white space,
      an optional sign, at least one digit, and a value inside the Int64 range. */
  predicate ParsesAsInt64(s: string)
  {
    var t := StripNumberWhite(s);
    var signed := |t| > 0 && (t[0] == '-' || t[0] == '+');
    var body := if signed then t[1..] else t;
    |body| > 0 && AllDigits(body)
    && DigitsValue(body) <= (if signed && t[0] == '-' then Int64Max + 1 else Int64Max)
  }

  // ------------------------------------------------------- file name metadata

  /** The capture time: the third token's leading 17 (or 14) digits read as
      local time, else the file's creation time. */
  function CaptureTime(parts: seq<string>, creationUtc: int, ctx: MetaContext): int
  {
    if |parts| > 2 && |parts[2]| >= 14 && ParsesAsInt64(parts[2]) then
      var timePart := if |parts[2]| >= 17 then parts[2][..17] else parts[2][..14];
      var format := if |timePart| == 17 then Format17 else Format14;
      match ctx.tryParseExact(timePart, format)
      case Some(local) => ctx.toUniversalTime(local)
      case None => creationUtc
    else creationUtc
  }

  /** Parses "IP_gender_time..." file names; a token that does not fit leaves
      the corresponding default in place. */
  function ParseMetaFromFileName(filePath: string, creationUtc: int, ctx: MetaContext): (m: FileMeta)
    ensures m.location == ctx.options.defaultLocation
    ensures || (m.cameraIp == [] && m.cameraName == ctx.options.defaultCameraName)
            || ('.' in m.cameraIp && '_' !in m.cameraIp && m.cameraName == m.cameraIp)
    ensures m.gender == -1 || m.gender == 0 || m.gender == 1
    ensures var parts := SplitNonEmpty(FileNameWithoutExtension(filePath), '_');
      && (m.cameraIp == (if |parts| > 0 && '.' in parts[0] then parts[0] else ""))
      && (m.cameraName == (if |parts| > 0 && '.' in parts[0] then parts[0] else ctx.options.defaultCameraName))
      && (m.gender == 1 <==> |parts| > 1 && parts[1] == "1")
      && (m.gender == 0 <==> |parts| > 1 && parts[1] == "0")
      && m.captureTimeUtc == CaptureTime(parts, creationUtc, ctx)
  {
    var parts := SplitNonEmpty(FileNameWithoutExtension(filePath), '_');
    SplitTokens(FileNameWithoutExtension(filePath), '_');
    var hasIp := |parts| > 0 && '.' in parts[0];
    var gender :=
      if |parts| > 1 && parts[1] == "1" then 1
      else if |parts| > 1 && parts[1] == "0" then 0
      else -1;
    FileMeta(
      CaptureTime(parts, creationUtc, ctx),
      if hasIp then parts[0] else "",
      if hasIp then parts[0] else ctx.options.defaultCameraName,
      ctx.options.defaultLocation,
      gender)
  }

  /** A name written by the cameras, "<ip>_<gender>_<digits>[_more]<ext>" under
      any directory, yields exactly its IP, gender and time. */
  lemma ParseWellFormedName(
    dir: string, ip: string, g: string, stamp: string, more: seq<string>, ext: string,
    creationUtc: int, ctx: MetaContext)
    requires dir == [] || IsDirSep(dir[|dir| - 1])
    requires ip != [] && '.' in ip && '_' !in ip && forall k :: 0 <= k < |ip| ==> !IsDirSep(ip[k])
    requires g == "0" || g == "1"
    requires (|stamp| == 17 || |stamp| == 14) && AllDigits(stamp)
    requires forall i :: 0 <= i < |more| ==>
      more[i] != [] && '_' !in more[i] && forall k :: 0 <= k < |more[i]| ==> !IsDirSep(more[i][k])
    requires forall k :: 0 <= k < |ext| ==> ext[k] != '.' && !IsDirSep(ext[k])
    ensures var m := ParseMetaFromFileName(dir + JoinWith([ip, g, stamp] + more, '_') + "." + ext, creationUtc, ctx);
      && m.cameraIp == ip && m.cameraName == ip
      && m.gender == (if g == "1" then 1 else 0)
      && m.captureTimeUtc ==
           match ctx.tryParseExact(stamp, if |stamp| == 17 then Format17 else Format14)
           case Some(local) => ctx.toUniversalTime(local)
           case None => creationUtc
  {
    var tokens := [ip, g, stamp] + more;
    forall i | 0 <= i < |tokens|
      ensures IsToken(tokens[i], '_')
      ensures forall k :: 0 <= k < |tokens[i]| ==> !IsDirSep(tokens[i][k])
    {
      if i >= 3 {
        assert tokens[i] == more[i - 3];
      }
    }
    NoDirSepInJoin(tokens, '_');
    FileNameOfPath(dir, JoinWith(tokens, '_'), ext);
    SplitJoin(tokens, '_');
    MetaOfTokens(dir + JoinWith(tokens, '_') + "." + ext, tokens, creationUtc, ctx);
  }

  /** Any name "<t0>_<t1>_..." under any directory: the first token is the
      camera IP and name exactly when it holds a '.', the second gives the
      gender 1 or 0 only when it is "1" or "0" (-1 otherwise, or when absent),
      and the time is read from the third. */
  lemma ParseTokenizedName(dir: string, tokens: seq<string>, ext: string, creationUtc: int, ctx: MetaContext)
    requires dir == [] || IsDirSep(dir[|dir| - 1])
    requires forall i :: 0 <= i < |tokens| ==>
      IsToken(tokens[i], '_') && forall k :: 0 <= k < |tokens[i]| ==> !IsDirSep(tokens[i][k])
    requires forall k :: 0 <= k < |ext| ==> ext[k] != '.' && !IsDirSep(ext[k])
    ensures var m := ParseMetaFromFileName(dir + JoinWith(tokens, '_') + "." + ext, creationUtc, ctx);
      && m.cameraIp == (if |tokens| > 0 && '.' in tokens[0] then tokens[0] else "")
      && m.cameraName == (if |tokens| > 0 && '.' in tokens[0] then tokens[0] else ctx.options.defaultCameraName)
      && m.gender == (if |tokens| > 1 && tokens[1] == "1" then 1 else if |tokens| > 1 && tokens[1] == "0" then 0 else -1)
      && m.captureTimeUtc == CaptureTime(tokens, creationUtc, ctx)
  {
    NoDirSepInJoin(tokens, '_');
    FileNameOfPath(dir, JoinWith(tokens, '_'), ext);
    SplitJoin(tokens, '_');
  }

  /** A gender token other than "0" or "1" leaves the gender unknown while
      the IP is still taken. */
  lemma UnknownGenderToken(creationUtc: int, ctx: MetaContext)
    ensures var m := ParseMetaFromFileName("10.0.0.1_2_x.jpg", creationUtc, ctx);
      m.gender == -1 && m.cameraIp == "10.0.0.1" && m.captureTimeUtc == creationUtc
  {
    var tokens := ["10.0.0.1", "2", "x"];
    assert JoinWith(tokens, '_') == "10.0.0.1_2_x" by {
      assert tokens[1..][1..] == ["x"];
    }
    assert "10.0.0.1_2_x.jpg" == [] + JoinWith(tokens, '_') + "." + "jpg";
    assert '.' in tokens[0] by { assert tokens[0][2] == '.'; }
    ParseTokenizedName([], tokens, "jpg", creationUtc, ctx);
  }

  /** The metadata of a path whose name splits into IP, gender and stamp tokens. */
  lemma MetaOfTokens(filePath: string, parts: seq<string>, creationUtc: int, ctx: MetaContext)
    requires SplitNonEmpty(FileNameWithoutExtension(filePath), '_') == parts
    requires |parts| > 2 && '.' in parts[0] && (parts[1] == "0" || parts[1] == "1")
    requires (|parts[2]| == 17 || |parts[2]| == 14) && AllDigits(parts[2])
    ensures var m := ParseMetaFromFileName(filePath, creationUtc, ctx);
      && m.cameraIp == parts[0] && m.cameraName == parts[0]
      && m.gender == (if parts[1] == "1" then 1 else 0)
      && m.captureTimeUtc ==
           match ctx.tryParseExact(parts[2], if |parts[2]| == 17 then Format17 else Format14)
           case Some(local) => ctx.toUniversalTime(local)
           case None => creationUtc
  {
    CaptureTimeOfStamp(parts, creationUtc, ctx);
  }

  lemma CaptureTimeOfStamp(parts: seq<string>, creationUtc: int, ctx: MetaContext)
    requires |parts| > 2 && (|parts[2]| == 17 || |parts[2]| == 14) && AllDigits(parts[2])
    ensures CaptureTime(parts, creationUtc, ctx) ==
      match ctx.tryParseExact(parts[2], if |parts[2]| == 17 then Format17 else Format14)
      case Some(local) => ctx.toUniversalTime(local)
      case None => creationUtc
  {
    StampParses(parts[2]);
    assert parts[2][..|parts[2]|] == parts[2];
  }

  /** The file name of dir + name + "." + ext, without its extension, is name. */
  lemma FileNameOfPath(dir: string, name: string, ext: string)
    requires dir == [] || IsDirSep(dir[|dir| - 1])
    requires forall k :: 0 <= k < |name| ==> !IsDirSep(name[k])
    requires forall k :: 0 <= k < |ext| ==> ext[k] != '.' && !IsDirSep(ext[k])
    ensures FileNameWithoutExtension(dir + name + "." + ext) == name
  {
    var file := name + "." + ext;
    forall k | 0 <= k < |file|
      ensures !IsDirSep(file[k])
    {
      if k < |name| {
        assert file[k] == name[k];
      } else if k > |name| {
        assert file[k] == ext[k - |name| - 1];
      }
    }
    assert dir + name + "." + ext == dir + file;
    FileNameUnderDir(dir, file);
    StripExtensionOf(name, ext);
  }

  /** Under a directory prefix the file name is what follows it. */
  lemma FileNameUnderDir(dir: string, file: string)
    requires dir == [] || IsDirSep(dir[|dir| - 1])
    requires forall k :: 0 <= k < |file| ==> !IsDirSep(file[k])
    ensures FileNameWithoutExtension(dir + file) == StripExtension(file)
  {
    AfterLastSep(dir, file);
  }

  /** Cutting name + "." + ext at its last '.' leaves name when ext has none. */
  lemma StripExtensionOf(name: string, ext: string)
    requires forall k :: 0 <= k < |ext| ==> ext[k] != '.'
    ensures StripExtension(name + "." + ext) == name
  {
    BeforeLastDot(name, ext);
    assert (name + "." + ext)[..|name|] == name;
  }

  /** The last separator of dir + file is dir's own trailing one when file has none. */
  lemma AfterLastSep(dir: string, file: string)
    requires dir == [] || IsDirSep(dir[|dir| - 1])
    requires forall k :: 0 <= k < |file| ==> !IsDirSep(file[k])
    ensures LastIndexWhere(dir + file, IsDirSep) == |dir| - 1
    ensures (dir + file)[|dir|..] == file
  {
    var path := dir + file;
    forall k | |dir| <= k < |path|
      ensures !IsDirSep(path[k])
    {
      assert path[k] == file[k - |dir|];
    }
    if |dir| > 0 {
      assert path[|dir| - 1] == dir[|dir| - 1];
    }
    LastIndexIs(path, IsDirSep, |dir| - 1);
    assert LastIndexWhere(path, IsDirSep) == |dir| - 1;
  }

  /** The last '.' of name + "." + ext is the one before ext when ext has none. */
  lemma BeforeLastDot(name: string, ext: string)
    requires forall k :: 0 <= k < |ext| ==> ext[k] != '.'
    ensures LastIndexWhere(name + "." + ext, IsDot) == |name|
  {
    var file := name + "." + ext;
    forall k | |name| < k < |file|
      ensures !IsDot(file[k])
    {
      assert file[k] == ext[k - |name| - 1];
    }
    assert IsDot(file[|name|]);
    LastIndexIs(file, IsDot, |name|);
    assert LastIndexWhere(file, IsDot) == |name|;
  }

  lemma {:induction false} NoDirSepInJoin(parts: seq<string>, sep: char)
    requires !IsDirSep(sep)
    requires forall i :: 0 <= i < |parts| ==> forall k :: 0 <= k < |parts[i]| ==> !IsDirSep(parts[i][k])
    ensures forall k :: 0 <= k < |JoinWith(parts, sep)| ==> !IsDirSep(JoinWith(parts, sep)[k])
    decreases |parts|
  {
    if |parts| > 1 {
      NoDirSepInJoin(parts[1..], sep);
      var rest := JoinWith(parts[1..], sep);
      var s := parts[0] + [sep] + rest;
      forall k | 0 <= k < |s|
        ensures !IsDirSep(s[k])
      {
        if k > |parts[0]| {
          assert s[k] == rest[k - |parts[0]| - 1];
        }
      }
    }
  }

  lemma StripDigits(s: string)
    requires s != [] && AllDigits(s)
    ensures StripNumberWhite(s) == s
  {
  }

  /** A stamp of 14 or 17 digits passes long.TryParse. */
  lemma StampParses(stamp: string)
    requires (|stamp| == 17 || |stamp| == 14) && AllDigits(stamp)
    ensures ParsesAsInt64(stamp)
  {
    StripDigits(stamp);
    DigitsValueBound(stamp);
    Pow10Monotone(14, 17);
    assert Pow10(4) == 10000;
    assert Pow10(8) == 100000000;
    assert Pow10(12) == 1000000000000;
    assert Pow10(16) == 10000000000000000;
  }

  lemma {:induction false} Pow10Monotone(a: nat, b: nat)
    requires a <= b
    ensures Pow10(a) <= Pow10(b)
    decreases b
  {
    if a < b {
      Pow10Monotone(a, b - 1);
    }
  }

  // ------------------------------------------------------------- reading bytes

  /** The read-with-retry outcome from attempt i on: a read returns its bytes;
      a vanished file or FileNotFoundException gives up; an IOException while
      the file still exists, or a denied access, tries again; three attempts at most. */
  function ReadOutcome(attempt: nat -> ReadAttempt, i: nat): Option<seq<byte>>
    decreases MaxReadRetry - i
  {
    if i >= MaxReadRetry then None
    else match attempt(i)
      case Gone => None
      case Read(data) => Some(data)
      case NotFound => None
      case IoFailure(stillExists) => if stillExists then ReadOutcome(attempt, i + 1) else None
      case AccessDenied => ReadOutcome(attempt, i + 1)
  }

  predicate Retryable(a: ReadAttempt)
  {
    a.AccessDenied? || (a.IoFailure? && a.stillExists)
  }

  /** The read succeeds exactly when some attempt among the first three returns
      bytes and every earlier attempt failed in a retryable way; it yields those bytes. */
  lemma {:induction false} ReadOutcomeMeaning(attempt: nat -> ReadAttempt, i: nat)
    requires i <= MaxReadRetry
    ensures ReadOutcome(attempt, i).Some? <==>
      exists n :: i <= n < MaxReadRetry && attempt(n).Read?
                  && forall j :: i <= j < n ==> Retryable(attempt(j))
    ensures forall n :: i <= n < MaxReadRetry && attempt(n).Read?
                  && (forall j :: i <= j < n ==> Retryable(attempt(j)))
                  ==> ReadOutcome(attempt, i) == Some(attempt(n).data)
    decreases MaxReadRetry - i
  {
    if i < MaxReadRetry {
      ReadOutcomeMeaning(attempt, i + 1);
      if ReadOutcome(attempt, i).Some? {
        if attempt(i).Read? {
          assert i <= i < MaxReadRetry && attempt(i).Read?;
        } else {
          var n :| i + 1 <= n < MaxReadRetry && attempt(n).Read?
                   && forall j :: i + 1 <= j < n ==> Retryable(attempt(j));
          assert forall j :: i <= j < n ==> Retryable(attempt(j));
        }
      }
    }
  }

  /** TryReadAllBytesWithRetryAsync. */
  method TryReadAllBytesWithRetry(attempt: nat -> ReadAttempt) returns (bytes: Option<seq<byte>>)
    ensures bytes == ReadOutcome(attempt, 0)
    ensures bytes.Some? ==> exists n :: 0 <= n < MaxReadRetry && attempt(n) == Read(bytes.value)
  {
    var i := 0;
    while i < MaxReadRetry
      invariant 0 <= i <= MaxReadRetry
      invariant ReadOutcome(attempt, i) == ReadOutcome(attempt, 0)
    {
      match attempt(i) {
        case Gone => return None;
        case Read(data) => return Some(data);
        case NotFound => return None;
        case IoFailure(stillExists) =>
          if !stillExists {
            return None;
          }
        case AccessDenied =>
      }
      i := i + 1;
    }
    return None;
  }

  // ------------------------------------------------------------------- polling

  /** The fingerprint the loop reads for path: only when both existence checks
      pass and the length can be read. */
  function CurrentFingerprint(fs: map<string, FileObs>, path: string): (r: Option<Fingerprint>)
    ensures r.Some? ==> path in fs && r.value.lastWriteUtc == fs[path].lastWriteUtc
  {
    if path in fs && fs[path].existsAtStart && fs[path].existsAfterStat && fs[path].length.Some? then
      Some(Fingerprint(fs[path].lastWriteUtc, fs[path].length.value))
    else None
  }

  predicate SeenUnchanged(fp: map<string, Fingerprint>, path: string, fpr: Fingerprint)
  {
    Fold(path) in fp && fp[Fold(path)] == fpr
  }

  function MakeSnapshot(path: string, bytes: seq<byte>, creationUtc: int, ctx: MetaContext): Snapshot
  {
    var m := ParseMetaFromFileName(path, creationUtc, ctx);
    Snapshot(bytes, m.captureTimeUtc, path, m.cameraIp, m.cameraName, m.location, m.gender)
  }

  /** The bytes the first read of path would return, if any. */
  function FirstRead(fs: map<string, FileObs>, path: string): Option<seq<byte>>
  {
    if path in fs then ReadOutcome(fs[path].attempt, 0) else None
  }

  /** The conditions under which the poll emits path: it can be
      fingerprinted, its fingerprint is new, it is at most 10 MB, it is still
      there just before the read, and the read returns some bytes. */
  predicate Emits(fp: map<string, Fingerprint>, path: string, fs: map<string, FileObs>)
  {
    && CurrentFingerprint(fs, path).Some?
    && !SeenUnchanged(fp, path, CurrentFingerprint(fs, path).value)
    && CurrentFingerprint(fs, path).value.length <= MaxFileBytes
    && fs[path].existsBeforeRead
    && FirstRead(fs, path).Some?
    && |FirstRead(fs, path).value| > 0
  }

  /** One iteration of the poll loop for path. */
  function Step(fp: map<string, Fingerprint>, path: string, fs: map<string, FileObs>, ctx: MetaContext): (r: StepResult)
    ensures CurrentFingerprint(fs, path).None? ==> r == StepResult(None, fp)
    ensures CurrentFingerprint(fs, path).Some? ==>
      var fpr := CurrentFingerprint(fs, path).value;
      if SeenUnchanged(fp, path, fpr) then r == StepResult(None, fp)
      else r.fingerprints == fp[Fold(path) := fpr]
    ensures r.emitted.Some? <==> Emits(fp, path, fs)
    ensures Emits(fp, path, fs) ==>
      r.emitted == Some(MakeSnapshot(path, FirstRead(fs, path).value, fs[path].creationUtc, ctx))
    ensures path in fs && !fs[path].existsBeforeRead ==> r.emitted.None?
    ensures r.emitted.Some? ==>
      && CurrentFingerprint(fs, path).value.length <= MaxFileBytes
      && r.emitted.value.filePath == path
      && |r.emitted.value.imageBytes| > 0
  {
    match CurrentFingerprint(fs, path)
    case None => StepResult(None, fp)
    case Some(fpr) =>
      if SeenUnchanged(fp, path, fpr) then StepResult(None, fp)
      else
        var o := fs[path];
        var bytes := if fpr.length > MaxFileBytes || !o.existsBeforeRead then None else ReadOutcome(o.attempt, 0);
        if bytes.None? || |bytes.value| == 0 then StepResult(None, fp[Fold(path) := fpr])
        else StepResult(Some(MakeSnapshot(path, bytes.value, o.creationUtc, ctx)), fp[Fold(path) := fpr])
  }

  function FoldSet(files: seq<string>): set<string>
  {
    set f | f in files :: Fold(f)
  }

  /** A snapshot built from its own file's first successful read. */
  predicate IsReadSnapshot(sn: Snapshot, fs: map<string, FileObs>, ctx: MetaContext)
  {
    && sn.filePath in fs
    && FirstRead(fs, sn.filePath).Some?
    && sn == MakeSnapshot(sn.filePath, FirstRead(fs, sn.filePath).value, fs[sn.filePath].creationUtc, ctx)
  }

  /** The loop over the batch, one Step per file in order. */
  function Run(fp: map<string, Fingerprint>, files: seq<string>, fs: map<string, FileObs>, ctx: MetaContext): (r: PollState)
    ensures |r.emitted| <= |files|
    ensures forall i :: 0 <= i < |r.emitted| ==> r.emitted[i].filePath in files
    ensures r.fingerprints.Keys <= fp.Keys + FoldSet(files)
    decreases |files|
  {
    if files == [] then PollState([], fp)
    else
      var prev := Run(fp, files[..|files| - 1], fs, ctx);
      var st := Step(prev.fingerprints, files[|files| - 1], fs, ctx);
      PollState(prev.emitted + (if st.emitted.Some? then [st.emitted.value] else []), st.fingerprints)
  }

  /** Every snapshot a run emits is built from its own file's first read. */
  lemma {:induction false} RunEmitsReadSnapshots(fp: map<string, Fingerprint>, files: seq<string>,
                                                 fs: map<string, FileObs>, ctx: MetaContext)
    ensures forall i :: 0 <= i < |Run(fp, files, fs, ctx).emitted| ==>
              IsReadSnapshot(Run(fp, files, fs, ctx).emitted[i], fs, ctx)
    decreases |files|
  {
    if files != [] {
      var prev := Run(fp, files[..|files| - 1], fs, ctx);
      var st := Step(prev.fingerprints, files[|files| - 1], fs, ctx);
      RunEmitsReadSnapshots(fp, files[..|files| - 1], fs, ctx);
      var e := Run(fp, files, fs, ctx).emitted;
      assert e == prev.emitted + (if st.emitted.Some? then [st.emitted.value] else []);
      if st.emitted.Some? {
        StepEmitsReadSnapshot(prev.fingerprints, files[|files| - 1], fs, ctx);
      }
      forall i | 0 <= i < |e|
        ensures IsReadSnapshot(e[i], fs, ctx)
      {
        if i < |prev.emitted| {
          assert e[i] == prev.emitted[i];
        } else {
          assert e[i] == st.emitted.value;
        }
      }
    }
  }

  /** A step emits a snapshot of its file's first read. */
  lemma StepEmitsReadSnapshot(fp: map<string, Fingerprint>, path: string, fs: map<string, FileObs>, ctx: MetaContext)
    requires Step(fp, path, fs, ctx).emitted.Some?
    ensures IsReadSnapshot(Step(fp, path, fs, ctx).emitted.value, fs, ctx)
  {
    assert Emits(fp, path, fs);
  }

  /** The run over a prefix one file longer takes one more step. */
  lemma RunStep(fp: map<string, Fingerprint>, files: seq<string>, i: int, fs: map<string, FileObs>, ctx: MetaContext)
    requires 0 <= i < |files|
    ensures var prev := Run(fp, files[..i], fs, ctx);
      var st := Step(prev.fingerprints, files[i], fs, ctx);
      Run(fp, files[..i + 1], fs, ctx) ==
        PollState(prev.emitted + (if st.emitted.Some? then [st.emitted.value] else []), st.fingerprints)
  {
    assert files[..i + 1][..i] == files[..i];
  }

  /** The sort key: the last write time, or 1601-01-01 for a path that is gone. */
  function LastWriteOf(fs: map<string, FileObs>, path: string): int
  {
    if path in fs then fs[path].lastWriteUtc else AbsentFileTimeUtc
  }

  function ByLastWrite(fs: map<string, FileObs>): string -> int
  {
    (f: string) => LastWriteOf(fs, f)
  }

  /** The files of one poll: ordered by last write time, the first twenty kept. */
  function Capped(files: seq<string>, fs: map<string, FileObs>): seq<string>
  {
    Take(SortBy(files, ByLastWrite(fs)), MaxBatchSize)
  }

  /** CleanupMissingFiles: only the fingerprints of listed files survive. */
  function Prune(fp: map<string, Fingerprint>, files: seq<string>): (r: map<string, Fingerprint>)
    ensures forall k :: k in r <==> k in fp && k in FoldSet(files)
    ensures forall k :: k in r ==> r[k] == fp[k]
  {
    map k | k in fp && k in FoldSet(files) :: fp[k]
  }

  /** Pruning removes exactly the keys that are not listed files. */
  lemma PruneRemovesUnlisted(fp: map<string, Fingerprint>, files: seq<string>)
    ensures fp - (fp.Keys - FoldSet(files)) == Prune(fp, files)
  {
  }

  /** Removing one more key is removing the larger set of keys. */
  lemma RemoveOneMore(m: map<string, Fingerprint>, removed: set<string>, k: string)
    ensures (m - removed) - {k} == m - (removed + {k})
  {
  }

  /** A whole poll: a missing folder yields nothing and leaves the fingerprints alone. */
  function Poll(fp: map<string, Fingerprint>, dirExists: bool, files: seq<string>, fs: map<string, FileObs>, ctx: MetaContext): PollState
  {
    if !dirExists then PollState([], fp)
    else
      var batch := Capped(files, fs);
      var r := Run(fp, batch, fs, ctx);
      PollState(r.emitted, Prune(r.fingerprints, batch))
  }

  // ------------------------------------------------------------------ the class

  class FolderSnapshotClient {
    /** The processed-file dictionary, keyed case-insensitively. */
    var processed: map<string, Fingerprint>

    constructor ()
      ensures processed == map[]
    {
      processed := map[];
    }

    /** FetchNewSnapshotsAsync. */
    method FetchNewSnapshots(dirExists: bool, files: seq<string>, fs: map<string, FileObs>, ctx: MetaContext)
      returns (results: seq<Snapshot>)
      modifies this
      ensures var p := Poll(old(processed), dirExists, files, fs, ctx);
        results == p.emitted && processed == p.fingerprints
    {
      results := [];
      if !dirExists {
        return;
      }
      var batch := SortBy(files, ByLastWrite(fs));
      if |batch| > MaxBatchSize {
        batch := batch[..MaxBatchSize];
      }
      assert batch == Capped(files, fs);
      results := ProcessBatch(batch, fs, ctx);
      CleanupMissingFiles(batch);
    }

    /** The poll loop over the batch, oldest file first. */
    method ProcessBatch(batch: seq<string>, fs: map<string, FileObs>, ctx: MetaContext) returns (results: seq<Snapshot>)
      modifies this
      ensures PollState(results, processed) == Run(old(processed), batch, fs, ctx)
    {
      results := [];
      for i := 0 to |batch|
        invariant Run(old(processed), batch[..i], fs, ctx) == PollState(results, processed)
      {
        RunStep(old(processed), batch, i, fs, ctx);
        var emitted := ProcessFile(batch[i], fs, ctx);
        if emitted.Some? {
          results := results + [emitted.value];
        }
      }
      assert batch[..|batch|] == batch;
    }

    /** The body of the poll loop for one file: the existence checks, the
        fingerprint comparison, the size limit and the read. */
    method ProcessFile(path: string, fs: map<string, FileObs>, ctx: MetaContext) returns (emitted: Option<Snapshot>)
      modifies this
      ensures StepResult(emitted, processed) == Step(old(processed), path, fs, ctx)
    {
      emitted := None;
      if path !in fs || !fs[path].existsAtStart {
        return;
      }
      var o := fs[path];
      var lastWriteUtc := o.lastWriteUtc;
      if !o.existsAfterStat || o.length.None? {
        return;
      }
      var length := o.length.value;
      var key := Fold(path);
      if key in processed && processed[key] == Fingerprint(lastWriteUtc, length) {
        return;
      }
      if length > MaxFileBytes || !o.existsBeforeRead {
        processed := processed[key := Fingerprint(lastWriteUtc, length)];
        return;
      }
      var bytes := TryReadAllBytesWithRetry(o.attempt);
      if bytes.None? || |bytes.value| == 0 {
        processed := processed[key := Fingerprint(lastWriteUtc, length)];
        return;
      }
      var meta := ParseMetaFromFileName(path, o.creationUtc, ctx);
      emitted := Some(Snapshot(bytes.value, meta.captureTimeUtc, path, meta.cameraIp,
                               meta.cameraName, meta.location, meta.gender));
      processed := processed[key := Fingerprint(lastWriteUtc, length)];
    }

    /** CleanupMissingFiles: drops every fingerprint whose key is not a listed file. */
    method CleanupMissingFiles(files: seq<string>)
      modifies this
      ensures processed == Prune(old(processed), files)
    {
      PruneRemovesUnlisted(processed, files);
      if |processed| == 0 {
        return;
      }
      var existing := FoldSet(files);
      var toRemove := processed.Keys - existing;
      RemoveKeys(toRemove);
    }

    /** The removal loop of CleanupMissingFiles, one key at a time. */
    method RemoveKeys(keys: set<string>)
      modifies this
      ensures processed == old(processed) - keys
    {
      var toRemove := keys;
      ghost var removed: set<string> := {};
      while toRemove != {}
        invariant toRemove + removed == keys
        invariant processed == old(processed) - removed
        decreases |toRemove|
      {
        var k :| k in toRemove;
        RemoveOneMore(old(processed), removed, k);
        processed := processed - {k};
        toRemove := toRemove - {k};
        removed := removed + {k};
      }
    }
  }

  // ----------------------------------------------------------------- properties

  predicate EmittedInOrder(emitted: seq<Snapshot>, key: string -> int)
  {
    forall i, j :: 0 <= i < j < |emitted| ==> key(emitted[i].filePath) <= key(emitted[j].filePath)
  }

  /** Snapshots come out in the order of the batch. */
  lemma {:induction false} RunKeepsOrder(fp: map<string, Fingerprint>, files: seq<string>, fs: map<string, FileObs>,
                                         ctx: MetaContext, key: string -> int)
    requires SortedBy(files, key)
    ensures EmittedInOrder(Run(fp, files, fs, ctx).emitted, key)
    decreases |files|
  {
    if files != [] {
      var init := files[..|files| - 1];
      var last := files[|files| - 1];
      RunKeepsOrder(fp, init, fs, ctx, key);
      RunLast(fp, files, fs, ctx);
      ExtendKeepsOrder(Run(fp, init, fs, ctx).emitted, Run(fp, files, fs, ctx).emitted, files, key);
    }
  }

  /** The order step of RunKeepsOrder, on the emitted sequences alone. */
  lemma ExtendKeepsOrder(prev: seq<Snapshot>, e: seq<Snapshot>, files: seq<string>, key: string -> int)
    requires files != [] && SortedBy(files, key) && EmittedInOrder(prev, key)
    requires forall i :: 0 <= i < |prev| ==> prev[i].filePath in files[..|files| - 1]
    requires |prev| <= |e| <= |prev| + 1 && e[..|prev|] == prev
    requires forall i :: |prev| <= i < |e| ==> e[i].filePath == files[|files| - 1]
    ensures EmittedInOrder(e, key)
  {
    var init := files[..|files| - 1];
    forall i, j | 0 <= i < j < |e|
      ensures key(e[i].filePath) <= key(e[j].filePath)
    {
      assert e[i] == prev[i];
      if j < |prev| {
        assert e[j] == prev[j];
      } else {
        var k :| 0 <= k < |init| && init[k] == prev[i].filePath;
        assert files[k] == init[k];
      }
    }
  }

  /** A run emits what the run over all but the last file of its batch
      emits, then at most a snapshot of that last file. */
  lemma RunLast(fp: map<string, Fingerprint>, files: seq<string>, fs: map<string, FileObs>, ctx: MetaContext)
    requires files != []
    ensures var prev := Run(fp, files[..|files| - 1], fs, ctx).emitted;
      var e := Run(fp, files, fs, ctx).emitted;
      && |prev| <= |e| <= |prev| + 1
      && e[..|prev|] == prev
      && forall i :: |prev| <= i < |e| ==> e[i].filePath == files[|files| - 1]
  {
    var prev := Run(fp, files[..|files| - 1], fs, ctx);
    var st := Step(prev.fingerprints, files[|files| - 1], fs, ctx);
    assert Run(fp, files, fs, ctx).emitted == prev.emitted + (if st.emitted.Some? then [st.emitted.value] else []);
    if st.emitted.Some? {
      StepRemembersEmitted(prev.fingerprints, files[|files| - 1], fs, ctx);
    }
  }

  /** The batch holds the oldest files: sorted, at most twenty, drawn from the
      listing, and no listed file left out is older than one kept. */
  lemma CappedIsOldest(files: seq<string>, fs: map<string, FileObs>)
    ensures var c := Capped(files, fs);
      && |c| == Min(MaxBatchSize, |files|)
      && SortedBy(c, ByLastWrite(fs))
      && multiset(c) <= multiset(files)
      && forall x, y :: x in c && y in files && y !in c ==> LastWriteOf(fs, x) <= LastWriteOf(fs, y)
  {
    var key := ByLastWrite(fs);
    var sorted := SortBy(files, key);
    var c := Take(sorted, MaxBatchSize);
    assert Capped(files, fs) == c;
    PrefixIsSmallest(sorted, MaxBatchSize, key);
    forall x, y | x in c && y in files && y !in c
      ensures LastWriteOf(fs, x) <= LastWriteOf(fs, y)
    {
      assert y in multiset(files);
      assert y in sorted;
      assert key(x) <= key(y);
    }
  }

  /** A prefix of a sorted sequence holds a sub-multiset of it, and nothing
      outside the prefix has a smaller key than anything inside. */
  lemma PrefixIsSmallest<T>(sorted: seq<T>, n: nat, key: T -> int)
    requires SortedBy(sorted, key)
    ensures var c := Take(sorted, n);
      && SortedBy(c, key)
      && multiset(c) <= multiset(sorted)
      && forall x, y :: x in c && y in sorted && y !in c ==> key(x) <= key(y)
  {
    var c := Take(sorted, n);
    assert forall i :: 0 <= i < |c| ==> c[i] == sorted[i];
    assert sorted == c + sorted[|c|..];
    assert multiset(sorted) == multiset(c) + multiset(sorted[|c|..]);
    forall x, y | x in c && y in sorted && y !in c
      ensures key(x) <= key(y)
    {
      var j :| 0 <= j < |sorted| && sorted[j] == y;
      var i :| 0 <= i < |c| && c[i] == x;
      assert sorted[i] == x;
    }
  }

  /** A poll emits at most twenty snapshots, each for a listed file, oldest
      first, and afterwards remembers only fingerprints of the batch. */
  lemma PollBounds(fp: map<string, Fingerprint>, dirExists: bool, files: seq<string>, fs: map<string, FileObs>, ctx: MetaContext)
    ensures var p := Poll(fp, dirExists, files, fs, ctx);
      && |p.emitted| <= MaxBatchSize
      && (forall i :: 0 <= i < |p.emitted| ==> p.emitted[i].filePath in Capped(files, fs) && p.emitted[i].filePath in files)
      && EmittedInOrder(p.emitted, ByLastWrite(fs))
      && (dirExists ==> p.fingerprints.Keys <= FoldSet(Capped(files, fs)))
      && (!dirExists ==> p == PollState([], fp))
  {
    if dirExists {
      var c := Capped(files, fs);
      CappedIsOldest(files, fs);
      RunKeepsOrder(fp, c, fs, ctx, ByLastWrite(fs));
      var p := Poll(fp, dirExists, files, fs, ctx);
      forall i | 0 <= i < |p.emitted|
        ensures p.emitted[i].filePath in files
      {
        assert p.emitted[i].filePath in multiset(c);
      }
    }
  }

  /** No other listed file is the same path up to ASCII case. */
  predicate NoCaseAlias(files: seq<string>, path: string)
  {
    forall f :: f in files && Fold(f) == Fold(path) ==> f == path
  }

  /** A file already fingerprinted with its current fingerprint is not emitted,
      and its fingerprint stays. */
  lemma {:induction false} UnchangedNotEmitted(fp: map<string, Fingerprint>, files: seq<string>, fs: map<string, FileObs>,
                                               ctx: MetaContext, path: string, fpr: Fingerprint)
    requires NoCaseAlias(files, path)
    requires CurrentFingerprint(fs, path) == Some(fpr) && SeenUnchanged(fp, path, fpr)
    ensures var r := Run(fp, files, fs, ctx);
      SeenUnchanged(r.fingerprints, path, fpr) && forall i :: 0 <= i < |r.emitted| ==> r.emitted[i].filePath != path
    decreases |files|
  {
    if files != [] {
      var init := files[..|files| - 1];
      var last := files[|files| - 1];
      assert NoCaseAlias(init, path);
      UnchangedNotEmitted(fp, init, fs, ctx, path, fpr);
      if Fold(last) == Fold(path) {
        assert last == path;
      }
    }
  }

  /** After a run, every emitted file is remembered with the fingerprint it was read under. */
  lemma {:induction false} EmittedFingerprinted(fp: map<string, Fingerprint>, files: seq<string>, fs: map<string, FileObs>,
                                                ctx: MetaContext, i: nat)
    requires i < |Run(fp, files, fs, ctx).emitted|
    requires NoCaseAlias(files, Run(fp, files, fs, ctx).emitted[i].filePath)
    ensures var r := Run(fp, files, fs, ctx);
      var path := r.emitted[i].filePath;
      CurrentFingerprint(fs, path).Some? && SeenUnchanged(r.fingerprints, path, CurrentFingerprint(fs, path).value)
    decreases |files|
  {
    var init := files[..|files| - 1];
    var last := files[|files| - 1];
    var prev := Run(fp, init, fs, ctx);
    var st := Step(prev.fingerprints, last, fs, ctx);
    var r := Run(fp, files, fs, ctx);
    assert r == PollState(prev.emitted + (if st.emitted.Some? then [st.emitted.value] else []), st.fingerprints);
    var path := r.emitted[i].filePath;
    if i < |prev.emitted| {
      assert prev.emitted[i] == r.emitted[i];
      assert NoCaseAlias(init, path);
      EmittedFingerprinted(fp, init, fs, ctx, i);
      StepKeepsSeen(prev.fingerprints, last, fs, ctx, path);
    } else {
      assert st.emitted.Some? && r.emitted[i] == st.emitted.value;
      StepRemembersEmitted(prev.fingerprints, last, fs, ctx);
    }
  }

  /** A step on another file, or on the same file unchanged, keeps what is
      remembered about path. */
  lemma StepKeepsSeen(fp: map<string, Fingerprint>, last: string, fs: map<string, FileObs>, ctx: MetaContext,
                      path: string)
    requires CurrentFingerprint(fs, path).Some? && SeenUnchanged(fp, path, CurrentFingerprint(fs, path).value)
    requires Fold(last) == Fold(path) ==> last == path
    ensures SeenUnchanged(Step(fp, last, fs, ctx).fingerprints, path, CurrentFingerprint(fs, path).value)
  {
  }

  /** A step that emits its file remembers it with its current fingerprint. */
  lemma StepRemembersEmitted(fp: map<string, Fingerprint>, path: string, fs: map<string, FileObs>, ctx: MetaContext)
    requires Step(fp, path, fs, ctx).emitted.Some?
    ensures Step(fp, path, fs, ctx).emitted.value.filePath == path
    ensures CurrentFingerprint(fs, path).Some?
    ensures SeenUnchanged(Step(fp, path, fs, ctx).fingerprints, path, CurrentFingerprint(fs, path).value)
  {
  }

  /** The no-reprocessing guarantee across two polls: a file emitted by one poll
      whose fingerprint has not changed by the next is not emitted again. */
  lemma SecondPollSkipsUnchanged(fp: map<string, Fingerprint>, files1: seq<string>, fs1: map<string, FileObs>,
                                 dirExists2: bool, files2: seq<string>, fs2: map<string, FileObs>,
                                 ctx: MetaContext, i: nat)
    requires i < |Poll(fp, true, files1, fs1, ctx).emitted|
    requires var path := Poll(fp, true, files1, fs1, ctx).emitted[i].filePath;
      && NoCaseAlias(Capped(files1, fs1), path)
      && NoCaseAlias(Capped(files2, fs2), path)
      && CurrentFingerprint(fs2, path) == CurrentFingerprint(fs1, path)
    ensures var p1 := Poll(fp, true, files1, fs1, ctx);
      var p2 := Poll(p1.fingerprints, dirExists2, files2, fs2, ctx);
      forall j :: 0 <= j < |p2.emitted| ==> p2.emitted[j].filePath != p1.emitted[i].filePath
  {
    var batch1 := Capped(files1, fs1);
    var r1 := Run(fp, batch1, fs1, ctx);
    var p1 := Poll(fp, true, files1, fs1, ctx);
    var path := r1.emitted[i].filePath;
    EmittedFingerprinted(fp, batch1, fs1, ctx, i);
    var fpr := CurrentFingerprint(fs1, path).value;
    assert Fold(path) in FoldSet(batch1);
    assert SeenUnchanged(p1.fingerprints, path, fpr);
    if dirExists2 {
      UnchangedNotEmitted(p1.fingerprints, Capped(files2, fs2), fs2, ctx, path, fpr);
    }
  }
  /** Files whose folded name differs from key leave the fingerprint under
      key as it was. */
  lemma {:induction false} RunKeepsKey(fp: map<string, Fingerprint>, files: seq<string>, fs: map<string, FileObs>,
                                       ctx: MetaContext, key: string)
    requires forall j :: 0 <= j < |files| ==> Fold(files[j]) != key
    ensures var r := Run(fp, files, fs, ctx).fingerprints;
      (key in r <==> key in fp) && (key in fp ==> r[key] == fp[key])
    decreases |files|
  {
    if files != [] {
      RunKeepsKey(fp, files[..|files| - 1], fs, ctx, key);
    }
  }

  /** What a run over a prefix of the batch emits, the whole run emits too. */
  lemma {:induction false} RunPrefixEmitted(fp: map<string, Fingerprint>, files: seq<string>, fs: map<string, FileObs>,
                                            ctx: MetaContext, m: nat)
    requires m <= |files|
    ensures forall sn :: sn in Run(fp, files[..m], fs, ctx).emitted ==> sn in Run(fp, files, fs, ctx).emitted
    decreases |files| - m
  {
    if m < |files| {
      var init := files[..|files| - 1];
      assert init[..m] == files[..m];
      RunPrefixEmitted(fp, init, fs, ctx, m);
    } else {
      assert files[..m] == files;
    }
  }

  /** A batch file that is new or changed, small enough, still there and
      readable is emitted with the bytes read, unless an earlier file of the
      batch with the same name up to case has already taken its fingerprint. */
  lemma RunEmitsChanged(fp: map<string, Fingerprint>, files: seq<string>, fs: map<string, FileObs>,
                        ctx: MetaContext, k: nat)
    requires k < |files|
    requires forall j :: 0 <= j < k ==> Fold(files[j]) != Fold(files[k])
    requires Emits(fp, files[k], fs)
    ensures MakeSnapshot(files[k], FirstRead(fs, files[k]).value, fs[files[k]].creationUtc, ctx)
              in Run(fp, files, fs, ctx).emitted
  {
    var path := files[k];
    var prev := Run(fp, files[..k], fs, ctx);
    RunKeepsKey(fp, files[..k], fs, ctx, Fold(path));
    assert Emits(prev.fingerprints, path, fs);
    RunStep(fp, files, k, fs, ctx);
    RunPrefixEmitted(fp, files, fs, ctx, k + 1);
  }

  /** Lifted to a whole poll: such a file of the batch comes out of the poll. */
  lemma PollEmitsChanged(fp: map<string, Fingerprint>, files: seq<string>, fs: map<string, FileObs>,
                         ctx: MetaContext, k: nat)
    requires k < |Capped(files, fs)|
    requires var c := Capped(files, fs); forall j :: 0 <= j < k ==> Fold(c[j]) != Fold(c[k])
    requires Emits(fp, Capped(files, fs)[k], fs)
    ensures var path := Capped(files, fs)[k];
      MakeSnapshot(path, FirstRead(fs, path).value, fs[path].creationUtc, ctx) in Poll(fp, true, files, fs, ctx).emitted
  {
    RunEmitsChanged(fp, Capped(files, fs), fs, ctx, k);
  }
}
