/** Base64Helper.DecodeImage: an image sent as base64 text, optionally
    behind a data URL header (RFC 2397), decoded with the standard alphabet
    of section 4 of RFC 4648 as Convert.FromBase64String does. */
module Base64Image {
  import opened Common

  const BlankImage := "ArgumentException: base64Image must not be empty"
  const BadFormat := "ArgumentException: base64Image is not valid base64"
  const DataImage := "data:image"

  /** The character standing for the 6-bit value v (section 4 of RFC 4648, table 1). */
  function CharOf(v: int): (c: char)
    requires 0 <= v < 64
    ensures ValueOf(c) == Some(v)
  {
    if v < 26 then ('A' as int + v) as char
    else if v < 52 then ('a' as int + (v - 26)) as char
    else if v < 62 then ('0' as int + (v - 52)) as char
    else if v == 62 then '+'
    else '/'
  }

  /** The 6-bit value of an alphabet character; None for anything else,
      including the pad character '='. */
  function ValueOf(c: char): (r: Option<int>)
    ensures r.Some? ==> 0 <= r.value < 64
    ensures c == '=' || c == ',' || c == ':' ==> r.None?
  {
    if 'A' <= c <= 'Z' then Some(c as int - 'A' as int)
    else if 'a' <= c <= 'z' then Some(c as int - 'a' as int + 26)
    else if '0' <= c <= '9' then Some(c as int - '0' as int + 52)
    else if c == '+' then Some(62)
    else if c == '/' then Some(63)
    else None
  }

  /** A character of encoded text: an alphabet character or the pad. */
  predicate IsCodeChar(c: char)
  {
    ValueOf(c).Some? || c == '='
  }

  /** The three bytes four 6-bit values stand for. */
  function Bytes3(a: int, b: int, c: int, d: int): (r: seq<byte>)
    requires 0 <= a < 64 && 0 <= b < 64 && 0 <= c < 64 && 0 <= d < 64
    ensures |r| == 3
  {
    [Hi(a, b), Mid(b, c), Lo(c, d)]
  }

  /** The first byte: all six bits of a, the top two of b. */
  function Hi(a: int, b: int): byte
    requires 0 <= a < 64 && 0 <= b < 64
  {
    a * 4 + b / 16
  }

  /** The second byte: the low four bits of b, the top four of c. */
  function Mid(b: int, c: int): byte
    requires 0 <= b < 64 && 0 <= c < 64
  {
    (b % 16) * 16 + c / 4
  }

  /** The third byte: the low two bits of c, all six of d. */
  function Lo(c: int, d: int): byte
    requires 0 <= c < 64 && 0 <= d < 64
  {
    (c % 4) * 64 + d
  }

  /** The four 6-bit values that encode bytes x, y, z. */
  function Six0(x: byte): (v: int) ensures 0 <= v < 64 { x / 4 }
  function Six1(x: byte, y: byte): (v: int) ensures 0 <= v < 64 { (x % 4) * 16 + y / 16 }
  function Six2(y: byte, z: byte): (v: int) ensures 0 <= v < 64 { (y % 16) * 4 + z / 64 }
  function Six3(z: byte): (v: int) ensures 0 <= v < 64 { z % 64 }

  /** Splitting three bytes into 6-bit values and joining them again gives
      the bytes back. */
  lemma JoinSplit(x: byte, y: byte, z: byte)
    ensures Hi(Six0(x), Six1(x, y)) == x
    ensures Mid(Six1(x, y), Six2(y, z)) == y
    ensures Lo(Six2(y, z), Six3(z)) == z
  {
  }

  /** The standard encoding: every three bytes become four characters; a
      final group of one or two bytes is padded with '='. */
  function Encode(b: seq<byte>): (r: string)
    ensures |r| % 4 == 0
    ensures |r| == 0 <==> |b| == 0
    ensures IsCodeText(r)
    decreases |b|
  {
    if |b| == 0 then []
    else if |b| < 3 then Tail(b)
    else Group(b[0], b[1], b[2]) + Encode(b[3..])
  }

  /** The four characters for three bytes. */
  function Group(x: byte, y: byte, z: byte): (r: string)
    ensures |r| == 4 && forall i :: 0 <= i < 4 ==> ValueOf(r[i]).Some?
  {
    [CharOf(Six0(x)), CharOf(Six1(x, y)), CharOf(Six2(y, z)), CharOf(Six3(z))]
  }

  /** The padded four characters for a final one or two bytes. */
  function Tail(b: seq<byte>): (r: string)
    requires 1 <= |b| <= 2
    ensures |r| == 4 && r[3] == '='
    ensures ValueOf(r[0]).Some? && ValueOf(r[1]).Some?
    ensures |b| == 1 <==> r[2] == '='
    ensures |b| == 2 ==> ValueOf(r[2]).Some?
  {
    if |b| == 1 then
      [CharOf(Six0(b[0])), CharOf(Six1(b[0], 0)), '=', '=']
    else
      [CharOf(Six0(b[0])), CharOf(Six1(b[0], b[1])), CharOf(Six2(b[1], 0)), '=']
  }

  /** The characters Convert.FromBase64String skips wherever they occur. */
  predicate IsSkipped(c: char)
  {
    c == ' ' || c == '\t' || c == '\r' || c == '\n'
  }

  /** The text with the skipped characters removed. */
  function Unspaced(s: string): (r: string)
    ensures |r| <= |s|
    ensures forall i :: 0 <= i < |r| ==> r[i] in s && !IsSkipped(r[i])
    ensures forall i :: 0 <= i < |s| && !IsSkipped(s[i]) ==> s[i] in r
    decreases |s|
  {
    if s == [] then []
    else (if IsSkipped(s[0]) then [] else [s[0]]) + Unspaced(s[1..])
  }

  lemma {:induction false} UnspacedKeepsPlainText(s: string)
    requires forall i :: 0 <= i < |s| ==> !IsSkipped(s[i])
    ensures Unspaced(s) == s
    decreases |s|
  {
    if s != [] {
      UnspacedKeepsPlainText(s[1..]);
    }
  }

  /** Decodes groups of four characters; only the last group may carry one
      or two pad characters. */
  function DecodeQuads(t: string): (r: Option<seq<byte>>)
    requires |t| % 4 == 0
    decreases |t|
  {
    if t == [] then Some([])
    else if |t| == 4 then LastQuad(t)
    else
      match FullQuad(t[..4])
      case None => None
      case Some(g) =>
        match DecodeQuads(t[4..])
        case None => None
        case Some(rest) => Some(g + rest)
  }

  /** A group before the last: four alphabet characters, three bytes. */
  function FullQuad(q: string): (r: Option<seq<byte>>)
    requires |q| == 4
    ensures r.Some? <==> forall i :: 0 <= i < 4 ==> ValueOf(q[i]).Some?
  {
    var a, b, c, d := ValueOf(q[0]), ValueOf(q[1]), ValueOf(q[2]), ValueOf(q[3]);
    if a.Some? && b.Some? && c.Some? && d.Some? then Some(Bytes3(a.value, b.value, c.value, d.value))
    else None
  }

  /** The last group: "xxxx" gives three bytes, "xxx=" two, "xx==" one. */
  function LastQuad(q: string): (r: Option<seq<byte>>)
    requires |q| == 4
    ensures r.Some? ==> forall i :: 0 <= i < 4 ==> IsCodeChar(q[i])
  {
    var a, b, c, d := ValueOf(q[0]), ValueOf(q[1]), ValueOf(q[2]), ValueOf(q[3]);
    if a.None? || b.None? then None
    else if c.Some? && d.Some? then Some(Bytes3(a.value, b.value, c.value, d.value))
    else if c.Some? && q[3] == '=' then Some(Bytes3(a.value, b.value, c.value, 0)[..2])
    else if q[2] == '=' && q[3] == '=' then Some(Bytes3(a.value, b.value, 0, 0)[..1])
    else None
  }

  /** Convert.FromBase64String; None where it throws FormatException. */
  function FromBase64(s: string): (r: Option<seq<byte>>)
  {
    var t := Unspaced(s);
    if |t| % 4 != 0 then None else DecodeQuads(t)
  }

  /** The text that is decoded: for a data URL ("data:image" in any case,
      with a comma past index 0) everything after the first comma, else the
      whole text. */
  function Payload(t: string): (r: string)
    ensures |r| <= |t|
    ensures StartsWithIgnoreCase(t, DataImage) && IndexOf(t, ',') > 0 ==>
              |r| < |t| && t == t[..|t| - |r|] + r && t[|t| - |r| - 1] == ',' && ',' !in t[..|t| - |r| - 1]
    ensures !StartsWithIgnoreCase(t, DataImage) ==> r == t
  {
    var k := IndexOf(t, ',');
    if StartsWithIgnoreCase(t, DataImage) && k > 0 then
      assert t[..k + 1][..k] == t[..k];
      t[k + 1..]
    else t
  }

  /** DecodeImage: null or white-space text is refused; the trimmed text's
      payload is decoded, a malformed payload being reported as an argument
      error. */
  function DecodeImage(s: Option<string>): (r: Result<seq<byte>>)
    ensures r == Err(BlankImage) <==> IsNullOrBlank(s)
    ensures r.Err? ==> r.error == BlankImage || r.error == BadFormat
    ensures !IsNullOrBlank(s) ==> (r.Ok? <==> FromBase64(Payload(Trim(s.value))).Some?)
  {
    if IsNullOrBlank(s) then Err(BlankImage)
    else
      match FromBase64(Payload(Trim(s.value)))
      case None => Err(BadFormat)
      case Some(bytes) => Ok(bytes)
  }

  /** Only alphabet and pad characters survive decoding. */
  lemma {:induction false} DecodedTextIsCode(t: string)
    requires |t| % 4 == 0
    requires DecodeQuads(t).Some?
    ensures IsCodeText(t)
    decreases |t|
  {
    if |t| > 4 {
      DecodedTextIsCode(t[4..]);
      forall i | 0 <= i < |t|
        ensures IsCodeChar(t[i])
      {
        if i < 4 {
          assert t[i] == t[..4][i];
        } else {
          assert t[i] == t[4..][i - 4];
        }
      }
    }
  }

  /** Decoding undoes encoding. */
  lemma {:induction false} DecodeEncode(b: seq<byte>)
    ensures DecodeQuads(Encode(b)) == Some(b)
    decreases |b|
  {
    if |b| <= 3 {
      DecodeEncodeShort(b);
    } else {
      var rest := b[3..];
      var e := Encode(rest);
      DecodeEncode(rest);
      assert DecodeQuads(e) == Some(rest);
      EncodeFirstGroup(b);
      assert Encode(b) == Group(b[0], b[1], b[2]) + e;
      DecodeGroupThen(b[0], b[1], b[2], rest, e);
      assert DecodeQuads(Encode(b)) == Some([b[0], b[1], b[2]] + rest);
      assert b == [b[0], b[1], b[2]] + rest;
    }
  }

  /** Up to three bytes are one group. */
  lemma DecodeEncodeShort(b: seq<byte>)
    requires |b| <= 3
    ensures DecodeQuads(Encode(b)) == Some(b)
  {
    if 1 <= |b| < 3 {
      assert Encode(b) == Tail(b);
      DecodeTail(b);
    } else if |b| == 3 {
      DecodeOneGroup(b);
    }
  }

  lemma DecodeOneGroup(b: seq<byte>)
    requires |b| == 3
    ensures DecodeQuads(Encode(b)) == Some(b)
  {
    assert Encode(b) == Group(b[0], b[1], b[2]);
    DecodeGroup(b[0], b[1], b[2]);
    assert b == [b[0], b[1], b[2]];
  }

  lemma EncodeFirstGroup(b: seq<byte>)
    requires |b| > 3
    ensures Encode(b) == Group(b[0], b[1], b[2]) + Encode(b[3..])
  {
  }

  /** A group before text that decodes to r decodes to its bytes, then r. */
  lemma DecodeGroupThen(x: byte, y: byte, z: byte, r: seq<byte>, e: string)
    requires |e| % 4 == 0 && |e| > 0
    requires DecodeQuads(e) == Some(r)
    ensures DecodeQuads(Group(x, y, z) + e) == Some([x, y, z] + r)
  {
    DecodeGroup(x, y, z);
    DecodeCons(Group(x, y, z), e, [x, y, z], r);
  }

  /** A group followed by further groups decodes as the group, then the rest. */
  lemma DecodeCons(g: string, rest: string, x: seq<byte>, y: seq<byte>)
    requires |g| == 4 && |rest| % 4 == 0 && |rest| > 0
    requires FullQuad(g) == Some(x) && DecodeQuads(rest) == Some(y)
    ensures DecodeQuads(g + rest) == Some(x + y)
  {
    var t := g + rest;
    assert t[..4] == g;
    assert t[4..] == rest;
  }

  /** A group decodes, as the last group or any other, to its three bytes. */
  lemma DecodeGroup(x: byte, y: byte, z: byte)
    ensures FullQuad(Group(x, y, z)) == Some([x, y, z])
    ensures LastQuad(Group(x, y, z)) == Some([x, y, z])
  {
    var g := Group(x, y, z);
    assert ValueOf(g[0]) == Some(Six0(x));
    assert ValueOf(g[1]) == Some(Six1(x, y));
    assert ValueOf(g[2]) == Some(Six2(y, z));
    assert ValueOf(g[3]) == Some(Six3(z));
    JoinSplit(x, y, z);
  }

  /** A padded final group decodes to its one or two bytes. */
  lemma DecodeTail(b: seq<byte>)
    requires 1 <= |b| <= 2
    ensures DecodeQuads(Tail(b)) == Some(b)
  {
    if |b| == 1 {
      DecodeTail1(b[0]);
      assert b == [b[0]];
    } else {
      DecodeTail2(b[0], b[1]);
      assert b == [b[0], b[1]];
    }
  }

  lemma DecodeTail1(x: byte)
    ensures DecodeQuads(Tail([x])) == Some([x])
  {
    var v, w := Six0(x), Six1(x, 0);
    assert Tail([x]) == [CharOf(v), CharOf(w), '=', '='];
    DecodeTwoPads(v, w);
    JoinSplit(x, 0, 0);
  }

  lemma DecodeTail2(x: byte, y: byte)
    ensures DecodeQuads(Tail([x, y])) == Some([x, y])
  {
    var v, w, z := Six0(x), Six1(x, y), Six2(y, 0);
    assert Tail([x, y]) == [CharOf(v), CharOf(w), CharOf(z), '='];
    DecodeOnePad(v, w, z);
    JoinSplit(x, y, 0);
  }

  lemma DecodeTwoPads(v: int, w: int)
    requires 0 <= v < 64 && 0 <= w < 64
    ensures LastQuad([CharOf(v), CharOf(w), '=', '=']) == Some([Hi(v, w)])
  {
    var t := [CharOf(v), CharOf(w), '=', '='];
    assert ValueOf(t[0]) == Some(v);
    assert ValueOf(t[1]) == Some(w);
    assert Bytes3(v, w, 0, 0)[..1] == [Hi(v, w)];
  }

  lemma DecodeOnePad(v: int, w: int, x: int)
    requires 0 <= v < 64 && 0 <= w < 64 && 0 <= x < 64
    ensures LastQuad([CharOf(v), CharOf(w), CharOf(x), '=']) == Some([Hi(v, w), Mid(w, x)])
  {
    var t := [CharOf(v), CharOf(w), CharOf(x), '='];
    assert ValueOf(t[0]) == Some(v);
    assert ValueOf(t[1]) == Some(w);
    assert ValueOf(t[2]) == Some(x);
    assert Bytes3(v, w, x, 0)[..2] == [Hi(v, w), Mid(w, x)];
  }

  /** Encoded text starts with a letter, digit, '+' or '/', never with 'd'
      followed by "ata:", so it is never taken for a data URL. */
  lemma EncodedIsNoDataUrl(b: seq<byte>)
    ensures !StartsWithIgnoreCase(Encode(b), DataImage)
  {
    var e := Encode(b);
    if |DataImage| <= |e| {
      assert IsCodeChar(e[4]);
      assert Fold(e[..|DataImage|])[4] == FoldChar(e[4]) != ':';
    }
  }

  /** Text without leading or trailing white space is its own trim. */
  lemma TrimKeepsTrimmed(s: string)
    requires s != [] && !IsWhiteSpace(s[0]) && !IsWhiteSpace(s[|s| - 1])
    ensures Trim(s) == s
  {
    assert SkipWhite(s, 0) == 0;
    assert SkipWhiteBack(s, 0, |s|) == |s|;
  }

  /** Encoded text: alphabet and pad characters only. */
  predicate IsCodeText(e: string)
  {
    forall i :: 0 <= i < |e| ==> IsCodeChar(e[i])
  }

  lemma CodeCharIsPlain(c: char)
    requires IsCodeChar(c)
    ensures !IsWhiteSpace(c) && !IsSkipped(c) && c != ','
  {
  }

  /** Encoded text is decoded as it stands: it has no white space to skip. */
  lemma FromBase64CodeText(e: string, b: seq<byte>)
    requires IsCodeText(e) && |e| % 4 == 0
    requires DecodeQuads(e) == Some(b)
    ensures FromBase64(e) == Some(b)
  {
    forall i | 0 <= i < |e|
      ensures !IsSkipped(e[i])
    {
      CodeCharIsPlain(e[i]);
    }
    UnspacedKeepsPlainText(e);
  }

  /** Nor has it white space to trim. */
  lemma DecodeCodeText(e: string, b: seq<byte>)
    requires e != [] && IsCodeText(e)
    requires FromBase64(e) == Some(b)
    requires !StartsWithIgnoreCase(e, DataImage)
    ensures DecodeImage(Some(e)) == Ok(b)
  {
    assert !IsBlank(e) by {
      CodeCharIsPlain(e[0]);
    }
    assert Trim(e) == e by {
      CodeCharIsPlain(e[0]);
      CodeCharIsPlain(e[|e| - 1]);
      TrimKeepsTrimmed(e);
    }
  }

  /** DecodeImage of the standard encoding of a non-empty byte string gives
      the bytes back. */
  lemma DecodeImageRoundTrip(b: seq<byte>)
    requires |b| > 0
    ensures DecodeImage(Some(Encode(b))) == Ok(b)
  {
    DecodeEncode(b);
    FromBase64CodeText(Encode(b), b);
    EncodedIsNoDataUrl(b);
    DecodeCodeText(Encode(b), b);
  }

  /** The header of a base64 data URL for an image subtype. */
  function DataUrlHeader(subtype: string): (h: string)
    ensures |h| > |DataImage| && h[|h| - 1] == ','
  {
    DataImage + "/" + subtype + ";base64,"
  }

  /** A data URL header starts with "data:image" and ends with the text's
      first comma. */
  lemma HeaderShape(subtype: string, e: string)
    requires ',' !in subtype
    ensures var s := DataUrlHeader(subtype) + e;
      && StartsWithIgnoreCase(s, DataImage)
      && IndexOf(s, ',') == |DataUrlHeader(subtype)| - 1
  {
    var h := DataUrlHeader(subtype);
    var s := h + e;
    assert s[..|DataImage|] == DataImage;
    assert s[|h| - 1] == ',';
    assert ',' !in h[..|h| - 1] by {
      assert h[..|h| - 1] == DataImage + "/" + subtype + ";base64";
    }
    assert s[..|h| - 1] == h[..|h| - 1];
  }

  /** Behind a data URL header, the payload is the encoded text. */
  lemma DataUrlPayload(subtype: string, e: string)
    requires ',' !in subtype
    requires e != [] && IsCodeText(e)
    ensures !IsBlank(DataUrlHeader(subtype) + e)
    ensures Payload(Trim(DataUrlHeader(subtype) + e)) == e
  {
    var h := DataUrlHeader(subtype);
    var s := h + e;
    assert s[0] == 'd';
    CodeCharIsPlain(e[|e| - 1]);
    assert s[|s| - 1] == e[|e| - 1];
    TrimKeepsTrimmed(s);
    HeaderShape(subtype, e);
    assert IndexOf(s, ',') == |h| - 1;
    assert s[|h|..] == e;
  }

  /** With a data URL header, whatever its subtype, DecodeImage still gives
      the bytes back. */
  lemma DataUrlRoundTrip(b: seq<byte>, subtype: string)
    requires |b| > 0
    requires ',' !in subtype
    ensures DecodeImage(Some(DataUrlHeader(subtype) + Encode(b))) == Ok(b)
  {
    DecodeEncode(b);
    FromBase64CodeText(Encode(b), b);
    DataUrlPayload(subtype, Encode(b));
  }

  /** Text that is not a data URL is decoded whole, so a comma in it makes
      the decode fail. */
  lemma CommaWithoutDataUrlIsRejected(s: string)
    requires !IsBlank(s)
    requires !StartsWithIgnoreCase(Trim(s), DataImage)
    requires ',' in Trim(s)
    ensures DecodeImage(Some(s)) == Err(BadFormat)
  {
    var t := Trim(s);
    var u := Unspaced(t);
    var i :| 0 <= i < |t| && t[i] == ',';
    assert ',' in u;
    if |u| % 4 == 0 && DecodeQuads(u).Some? {
      DecodedTextIsCode(u);
    }
  }
}
