/**
 * The bytes the relay writes to a viewer: HTTP/1.1 responses (a status
 * line and header fields, each ended by CRLF, then an empty line, then the
 * body, as section 4 of RFC 9112 lays a message out) and the parts of a
 * multipart/x-mixed-replace body whose delimiter lines section 5.1.1 of
 * RFC 2046 defines. Each builder is given a partner: `ReadHead`, a reader
 * that takes header lines up to the first empty one and hands back the rest
 * as the body, and `ContentLength`, which reads the length a head announces
 * (section 8.6 of RFC 9110).
 *
 * Dates and timestamps are opaque texts here; the clock that formats them
 * is not part of this model.
 */
module Http {
  import opened Wrappers
  import opened Bytes
  import opened Text
  import opened Utf8

  const CR: byte := 13
  const LF: byte := 10
  const CRLF: seq<byte> := [13, 10]

  /** A text without CR or LF. */
  predicate NoLineBreak(s: string) {
    '\r' !in s && '\n' !in s
  }

  lemma NoLineBreakAppend(a: string, b: string)
    requires NoLineBreak(a) && NoLineBreak(b)
    ensures NoLineBreak(a + b)
  {
    assert forall c :: c in a + b ==> c in a || c in b;
  }

  /** A header line a reader can take back: not empty, without CR or LF. */
  predicate ProperLine(l: string) {
    l != [] && NoLineBreak(l)
  }

  predicate ProperLines(ls: seq<string>) {
    forall k :: 0 <= k < |ls| ==> ProperLine(ls[k])
  }

  /** The lines, each followed by CRLF. */
  function Lines(ls: seq<string>): seq<byte> {
    if ls == [] then [] else Encode(ls[0]) + CRLF + Lines(ls[1..])
  }

  /** A head of these lines, the empty line that ends it, and the body. */
  function Message(ls: seq<string>, body: seq<byte>): seq<byte> {
    Lines(ls) + CRLF + body
  }

  // ---------------------------------------------------------------------------
  // The reader
  // ---------------------------------------------------------------------------

  /** The bytes before the first CRLF and the bytes after it, or nothing without a CRLF. */
  function SplitLine(s: seq<byte>): (r: Option<(seq<byte>, seq<byte>)>)
    ensures r.Some? ==> s == r.value.0 + CRLF + r.value.1
    ensures r.Some? ==> |r.value.1| < |s|
  {
    match FindFrom(s, CRLF, 0)
    case None => None
    case Some(i) =>
      assert s[i..i + 2] == CRLF;
      assert s == s[..i] + s[i..i + 2] + s[i + 2..];
      Some((s[..i], s[i + 2..]))
  }

  /**
   * The header lines of `s` up to the first empty line, as text, and the
   * bytes after that empty line; nothing when the head never ends or a line
   * is not UTF-8.
   */
  function ReadHead(s: seq<byte>): (r: Option<(seq<string>, seq<byte>)>)
    ensures r.Some? ==> |r.value.1| < |s|
    decreases |s|
  {
    match SplitLine(s)
    case None => None
    case Some((line, rest)) =>
      if line == [] then Some(([], rest))
      else
        match (Decode(line), ReadHead(rest))
        case (Some(l), Some((ls, body))) => Some(([l] + ls, body))
        case _ => None
  }

  lemma SplitLineOf(l: string, rest: seq<byte>)
    requires NoLineBreak(l)
    ensures SplitLine(Encode(l) + CRLF + rest) == Some((Encode(l), rest))
  {
    var e := Encode(l);
    var s := e + CRLF + rest;
    EncodeAvoids(l, CR);
    FindAfterAvoiding(e, CRLF, rest);
    assert s[..|e|] == e;
    assert s[|e| + 2..] == rest;
  }

  lemma EmptyLine(rest: seq<byte>)
    ensures SplitLine(CRLF + rest) == Some(([], rest))
  {
    FindFirst(CRLF + rest, CRLF, 0, 0);
    assert (CRLF + rest)[2..] == rest;
  }

  /** Reading a proper head back gives exactly its lines and its body. */
  lemma ReadHeadMessage(ls: seq<string>, body: seq<byte>)
    requires ProperLines(ls)
    ensures ReadHead(Message(ls, body)) == Some((ls, body))
  {
    EmptyLine(body);
    assert ReadHead(CRLF + body) == Some(([], body));
    ReadHeadAfterLines(ls, CRLF + body);
    assert Message(ls, body) == Lines(ls) + (CRLF + body);
    assert ls + [] == ls;
  }

  /** Proper lines in front of other bytes are read as lines, and the reader carries on after them. */
  lemma {:induction false} ReadHeadAfterLines(ls: seq<string>, rest: seq<byte>)
    requires ProperLines(ls)
    ensures ReadHead(Lines(ls) + rest).None? <==> ReadHead(rest).None?
    ensures ReadHead(rest).Some? ==>
      ReadHead(Lines(ls) + rest) == Some((ls + ReadHead(rest).value.0, ReadHead(rest).value.1))
  {
    if ls == [] {
      assert Lines(ls) + rest == rest;
      if ReadHead(rest).Some? {
        assert ls + ReadHead(rest).value.0 == ReadHead(rest).value.0;
      }
    } else {
      var l := ls[0];
      assert ProperLine(l);
      assert ProperLines(ls[1..]) by {
        forall k | 0 <= k < |ls[1..]| ensures ProperLine(ls[1..][k]) {
          assert ls[1..][k] == ls[k + 1];
        }
      }
      var tail := Lines(ls[1..]) + rest;
      assert Lines(ls) + rest == Encode(l) + CRLF + tail;
      ReadHeadAfterLines(ls[1..], rest);
      ReadHeadLine(l, tail);
      if ReadHead(rest).Some? {
        ConsAppend(ls, ReadHead(rest).value.0);
      }
    }
  }

  lemma ConsAppend<T>(xs: seq<T>, ys: seq<T>)
    requires xs != []
    ensures [xs[0]] + (xs[1..] + ys) == xs + ys
  {
    assert xs == [xs[0]] + xs[1..];
  }

  /** One proper line in front: the reader takes it and goes on with what follows. */
  lemma ReadHeadLine(l: string, tail: seq<byte>)
    requires ProperLine(l)
    ensures ReadHead(Encode(l) + CRLF + tail) ==
      match ReadHead(tail)
      case None => None
      case Some((ls, body)) => Some(([l] + ls, body))
  {
    SplitLineOf(l, tail);
    EncodeAvoids(l, CR);
    DecodeEncode(l);
  }

  /** The value of the first line that starts with `name`. */
  function HeaderValue(ls: seq<string>, name: string): (v: Option<string>)
    ensures v.Some? ==> exists k :: 0 <= k < |ls| && ls[k] == name + v.value
  {
    if ls == [] then None
    else if StartsWith(ls[0], name) then
      assert ls[0] == name + ls[0][|name|..];
      Some(ls[0][|name|..])
    else
      var v := HeaderValue(ls[1..], name);
      if v.Some? then
        var k :| 0 <= k < |ls[1..]| && ls[1..][k] == name + v.value;
        assert ls[k + 1] == name + v.value;
        v
      else v
  }

  const CONTENT_LENGTH: string := "Content-Length: "

  /** The body length a head announces, read as `usize`. */
  function ContentLength(ls: seq<string>): Option<nat> {
    match HeaderValue(ls, CONTENT_LENGTH)
    case None => None
    case Some(v) => ParseUnsigned(v, USIZE_BOUND)
  }

  function ContentLengthLine(n: nat): string {
    CONTENT_LENGTH + Decimal(n)
  }

  lemma ContentLengthLineIsProper(n: nat)
    ensures ProperLine(ContentLengthLine(n))
  {
    var d := Decimal(n);
    assert forall i :: 0 <= i < |d| ==> IsDigit(d[i]);
    assert forall c :: c in d ==> IsDigit(c);
    NoLineBreakAppend(CONTENT_LENGTH, d);
  }

  /** A line that differs from `Content-Length: ` at some position of it does not announce a length. */
  lemma NotLengthLine(l: string, i: nat)
    requires i < |l| && i < |CONTENT_LENGTH| && l[i] != CONTENT_LENGTH[i]
    ensures !StartsWith(l, CONTENT_LENGTH)
  {
  }

  /** With no earlier `Content-Length` line, the one for `n` announces `n`. */
  lemma {:induction false} ContentLengthAt(ls: seq<string>, k: nat, n: nat)
    requires k < |ls| && ls[k] == ContentLengthLine(n) && n < USIZE_BOUND
    requires forall j :: 0 <= j < k ==> !StartsWith(ls[j], CONTENT_LENGTH)
    ensures ContentLength(ls) == Some(n)
  {
    if k == 0 {
      assert StartsWith(ls[0], CONTENT_LENGTH) by {
        assert ls[0][..|CONTENT_LENGTH|] == CONTENT_LENGTH;
      }
      assert ls[0][|CONTENT_LENGTH|..] == Decimal(n);
      ParseDecimal(n, USIZE_BOUND);
    } else {
      assert !StartsWith(ls[0], CONTENT_LENGTH);
      ContentLengthAt(ls[1..], k - 1, n);
    }
  }

  // ---------------------------------------------------------------------------
  // Header texts
  // ---------------------------------------------------------------------------

  // The longer header lines are written as joins of short pieces: the same
  // text, in a form whose freedom from line breaks is checked piece by piece.

  const OK: string := "HTTP/1.1 200 OK"
  const NOT_FOUND: string := "HTTP/1.1 404 Not Found"
  const UNAVAILABLE: string := "HTTP/1.1 503 " + "Service Unavailable"
  const JPEG_TYPE: string := "Content-Type: image/jpeg"
  const JSON_TYPE: string := "Content-Type: " + "application/json"
  const DATE: string := "Date: "
  const CACHE_DIRECTIVES: seq<string> :=
    ["no-store", "no-cache", "must-revalidate", "proxy-revalidate", "pre-check=0", "post-check=0", "max-age=0"]
  const CACHE_CONTROL: string := "Cache-Control: " + Join(CACHE_DIRECTIVES, ", ")
  const PRAGMA: string := "Pragma: no-cache"
  const EXPIRES: string := "Expires: " + "Mon, 3 Jan 2000 12:34:56 GMT"
  const COOKIE: string := "Set-Cookie: stream_client="
  const COOKIE_ATTRIBUTES: string := "; path=/; max-age=30"
  const KEEP_ALIVE: string := "Connection: keep-alive"
  const BOUNDARY: string := "boundarydonotcross"
  const MULTIPART_TYPE: string := "Content-Type: " + "multipart/x-mixed-replace" + ";boundary=" + BOUNDARY
  const DELIMITER: string := "--" + BOUNDARY
  const TIMESTAMP: string := "X-Timestamp: "
  const FRAME_DELIMITER: string := "--frame"

  // One lemma per text: a literal's characters cost the solver much.

  lemma OkProper() ensures ProperLine(OK) { }
  lemma NotFoundProper() ensures ProperLine(NOT_FOUND) { }
  lemma UnavailableProper() ensures ProperLine(UNAVAILABLE) {
    NoLineBreakAppend("HTTP/1.1 503 ", "Service Unavailable");
  }
  lemma JpegTypeProper() ensures ProperLine(JPEG_TYPE) { }
  lemma JsonTypeProper() ensures ProperLine(JSON_TYPE) {
    NoLineBreakAppend("Content-Type: ", "application/json");
  }
  lemma DelimiterProper() ensures ProperLine(DELIMITER) && ProperLine(FRAME_DELIMITER) {
    NoLineBreakAppend("--", BOUNDARY);
  }
  lemma PragmaProper() ensures ProperLine(PRAGMA) { }
  lemma ExpiresProper() ensures ProperLine(EXPIRES) {
    NoLineBreakAppend("Expires: ", "Mon, 3 Jan 2000 12:34:56 GMT");
  }
  lemma KeepAliveProper() ensures ProperLine(KEEP_ALIVE) { }
  lemma CookieProper() ensures NoLineBreak(COOKIE) { }
  lemma CookieAttributesProper() ensures NoLineBreak(COOKIE_ATTRIBUTES) { }

  lemma CacheDirectivesProper()
    ensures forall k :: 0 <= k < |CACHE_DIRECTIVES| ==> NoLineBreak(CACHE_DIRECTIVES[k])
  {
  }

  lemma CacheControlProper()
    ensures ProperLine(CACHE_CONTROL)
  {
    CacheDirectivesProper();
    JoinAvoids(CACHE_DIRECTIVES, ", ", '\r');
    JoinAvoids(CACHE_DIRECTIVES, ", ", '\n');
    NoLineBreakAppend("Cache-Control: ", Join(CACHE_DIRECTIVES, ", "));
  }

  lemma MultipartPiecesProper()
    ensures NoLineBreak("Content-Type: ") && NoLineBreak("multipart/x-mixed-replace")
    ensures NoLineBreak(";boundary=") && NoLineBreak(BOUNDARY)
  {
    MultipartNameProper();
    BoundaryProper();
  }
  lemma MultipartNameProper() ensures NoLineBreak("multipart/x-mixed-replace") { }
  lemma BoundaryProper() ensures NoLineBreak(BOUNDARY) { }

  lemma MultipartTypeProper()
    ensures ProperLine(MULTIPART_TYPE)
  {
    MultipartPiecesProper();
    NoLineBreakAppend("Content-Type: ", "multipart/x-mixed-replace");
    NoLineBreakAppend("Content-Type: " + "multipart/x-mixed-replace", ";boundary=");
    NoLineBreakAppend("Content-Type: " + "multipart/x-mixed-replace" + ";boundary=", BOUNDARY);
  }

  // ---------------------------------------------------------------------------
  // Responses written on the viewer socket
  // ---------------------------------------------------------------------------

  /** A response with a status line and no header fields or body (`503`, `404`). */
  function StatusOnly(status: string): seq<byte> {
    Message([status], [])
  }

  function SnapshotLines(date: string, n: nat): seq<string> {
    [OK, JPEG_TYPE, DATE + date, ContentLengthLine(n)]
  }

  /** `200 OK` with the JPEG as its body: the snapshot route of the socket handlers. */
  function SnapshotResponse(date: string, img: seq<byte>): seq<byte> {
    Message(SnapshotLines(date, |img|), img)
  }

  function JsonLines(date: string, n: nat): seq<string> {
    [OK, JSON_TYPE, DATE + date, ContentLengthLine(n)]
  }

  /** `200 OK` with a JSON text as its body: the state routes; the length counts the text's UTF-8 bytes. */
  function JsonResponse(date: string, json: string): seq<byte> {
    Message(JsonLines(date, |Encode(json)|), Encode(json))
  }

  lemma DateLineIsProper(date: string)
    requires NoLineBreak(date)
    ensures ProperLine(DATE + date)
  {
    NoLineBreakAppend(DATE, date);
  }

  /** Four lines: a status, a type, a date and a `Content-Length`, each proper. */
  lemma FourLinesProper(ls: seq<string>, date: string, n: nat)
    requires |ls| == 4 && ProperLine(ls[0]) && ProperLine(ls[1])
    requires ls[2] == DATE + date && NoLineBreak(date) && ls[3] == ContentLengthLine(n)
    ensures ProperLines(ls)
  {
    DateLineIsProper(date);
    ContentLengthLineIsProper(n);
  }

  /**
   * A reader of the snapshot response finds the four header lines, a body
   * that is exactly the image, and a `Content-Length` equal to its size.
   */
  lemma SnapshotResponseReads(date: string, img: seq<byte>)
    requires NoLineBreak(date) && |img| < USIZE_BOUND
    ensures ReadHead(SnapshotResponse(date, img)) == Some((SnapshotLines(date, |img|), img))
    ensures ContentLength(SnapshotLines(date, |img|)) == Some(|img|)
  {
    OkProper();
    JpegTypeProper();
    FourLinesProper(SnapshotLines(date, |img|), date, |img|);
    ReadHeadMessage(SnapshotLines(date, |img|), img);
    SnapshotLength(date, |img|);
  }

  lemma SnapshotLength(date: string, n: nat)
    requires n < USIZE_BOUND
    ensures ContentLength(SnapshotLines(date, n)) == Some(n)
  {
    var ls := SnapshotLines(date, n);
    assert ls[1][8] == 'T';
    NotLengthLine(ls[0], 0);
    NotLengthLine(ls[1], 8);
    NotLengthLine(ls[2], 0);
    ContentLengthAt(ls, 3, n);
  }

  /** The same for the JSON responses: the body is the text's bytes and the announced length is their number. */
  lemma JsonResponseReads(date: string, json: string)
    requires NoLineBreak(date) && |Encode(json)| < USIZE_BOUND
    ensures ReadHead(JsonResponse(date, json)) == Some((JsonLines(date, |Encode(json)|), Encode(json)))
    ensures ContentLength(JsonLines(date, |Encode(json)|)) == Some(|Encode(json)|)
    ensures Decode(ReadHead(JsonResponse(date, json)).value.1) == Some(json)
  {
    var body := Encode(json);
    OkProper();
    JsonTypeProper();
    FourLinesProper(JsonLines(date, |body|), date, |body|);
    ReadHeadMessage(JsonLines(date, |body|), body);
    JsonLength(date, |body|);
    DecodeEncode(json);
  }

  lemma JsonLength(date: string, n: nat)
    requires n < USIZE_BOUND
    ensures ContentLength(JsonLines(date, n)) == Some(n)
  {
    var ls := JsonLines(date, n);
    assert ls[1][8] == 'T';
    NotLengthLine(ls[0], 0);
    NotLengthLine(ls[1], 8);
    NotLengthLine(ls[2], 0);
    ContentLengthAt(ls, 3, n);
  }

  /** The bare status responses read back as their status line and nothing else. */
  lemma StatusOnlyReads(status: string)
    requires ProperLine(status)
    ensures ReadHead(StatusOnly(status)) == Some(([status], []))
  {
    ReadHeadMessage([status], []);
  }

  /** The head of the viewer stream: no caching, the viewer's cookie, and the multipart boundary. */
  function StreamHeaderLines(cookieId: string, cookieKey: string): seq<string> {
    [OK, CACHE_CONTROL, PRAGMA, EXPIRES, CookieLine(cookieId, cookieKey), KEEP_ALIVE, MULTIPART_TYPE]
  }

  /** `Set-Cookie: stream_client=<id>/<key>; path=/; max-age=30`. */
  function CookieLine(cookieId: string, cookieKey: string): string {
    COOKIE + cookieId + "/" + cookieKey + COOKIE_ATTRIBUTES
  }

  lemma CookieLineIsProper(cookieId: string, cookieKey: string)
    requires NoLineBreak(cookieId) && NoLineBreak(cookieKey)
    ensures ProperLine(CookieLine(cookieId, cookieKey))
  {
    CookieProper();
    CookieAttributesProper();
    NoLineBreakAppend(COOKIE, cookieId);
    NoLineBreakAppend(COOKIE + cookieId, "/");
    NoLineBreakAppend(COOKIE + cookieId + "/", cookieKey);
    NoLineBreakAppend(COOKIE + cookieId + "/" + cookieKey, COOKIE_ATTRIBUTES);
  }

  function StreamHeader(cookieId: string, cookieKey: string): seq<byte> {
    Message(StreamHeaderLines(cookieId, cookieKey), [])
  }

  /** The stream head ends with its empty line: the body that follows is exactly the parts written after it. */
  lemma StreamHeaderReads(cookieId: string, cookieKey: string, parts: seq<byte>)
    requires NoLineBreak(cookieId) && NoLineBreak(cookieKey)
    ensures ReadHead(StreamHeader(cookieId, cookieKey) + parts) == Some((StreamHeaderLines(cookieId, cookieKey), parts))
  {
    var ls := StreamHeaderLines(cookieId, cookieKey);
    OkProper();
    CacheControlProper();
    PragmaProper();
    ExpiresProper();
    KeepAliveProper();
    MultipartTypeProper();
    CookieLineIsProper(cookieId, cookieKey);
    SevenLinesProper(OK, CACHE_CONTROL, PRAGMA, EXPIRES, CookieLine(cookieId, cookieKey), KEEP_ALIVE, MULTIPART_TYPE);
    assert StreamHeader(cookieId, cookieKey) + parts == Message(ls, parts);
    ReadHeadMessage(ls, parts);
  }

  lemma SevenLinesProper(a: string, b: string, c: string, d: string, e: string, f: string, g: string)
    requires ProperLine(a) && ProperLine(b) && ProperLine(c) && ProperLine(d)
    requires ProperLine(e) && ProperLine(f) && ProperLine(g)
    ensures ProperLines([a, b, c, d, e, f, g])
  {
  }

  // ---------------------------------------------------------------------------
  // Multipart body parts
  // ---------------------------------------------------------------------------

  function TimedPartLines(n: nat, timestamp: string): seq<string> {
    [DELIMITER, JPEG_TYPE, ContentLengthLine(n), TIMESTAMP + timestamp]
  }

  function PartLines(n: nat): seq<string> {
    [DELIMITER, JPEG_TYPE, ContentLengthLine(n)]
  }

  /** A part with its timestamp: delimiter line, type, length, timestamp, empty line, the JPEG, CRLF. */
  function TimedPart(img: seq<byte>, timestamp: string): seq<byte> {
    Message(TimedPartLines(|img|, timestamp), img + CRLF)
  }

  /** A part without the timestamp line, still closed by an empty line. */
  function PlainPart(img: seq<byte>): seq<byte> {
    Message(PartLines(|img|), img + CRLF)
  }

  /** The later part of the advanced-headers form: the length line is followed at once by the JPEG. */
  function OpenPart(img: seq<byte>): seq<byte> {
    Lines(PartLines(|img|)) + (img + CRLF)
  }

  lemma PartLinesProper(n: nat)
    ensures ProperLines(PartLines(n))
  {
    DelimiterProper();
    JpegTypeProper();
    ContentLengthLineIsProper(n);
  }

  /**
   * A timestamped part reads back as its delimiter and header lines, then
   * the JPEG and the CRLF that, with the next part's `--boundarydonotcross`,
   * makes the next delimiter; the announced length is the JPEG's.
   */
  lemma TimedPartReads(img: seq<byte>, timestamp: string)
    requires NoLineBreak(timestamp) && |img| < USIZE_BOUND
    ensures ReadHead(TimedPart(img, timestamp)) == Some((TimedPartLines(|img|, timestamp), img + CRLF))
    ensures ContentLength(TimedPartLines(|img|, timestamp)) == Some(|img|)
  {
    var ls := TimedPartLines(|img|, timestamp);
    PartLinesProper(|img|);
    assert ls == PartLines(|img|) + [TIMESTAMP + timestamp];
    NoLineBreakAppend(TIMESTAMP, timestamp);
    assert ProperLines(ls);
    ReadHeadMessage(ls, img + CRLF);
    TimedPartLength(|img|, timestamp);
  }

  lemma TimedPartLength(n: nat, timestamp: string)
    requires n < USIZE_BOUND
    ensures ContentLength(TimedPartLines(n, timestamp)) == Some(n)
  {
    var ls := TimedPartLines(n, timestamp);
    assert ls[1][8] == 'T';
    NotLengthLine(ls[0], 0);
    NotLengthLine(ls[1], 8);
    ContentLengthAt(ls, 2, n);
  }

  lemma PlainPartReads(img: seq<byte>)
    requires |img| < USIZE_BOUND
    ensures ReadHead(PlainPart(img)) == Some((PartLines(|img|), img + CRLF))
    ensures ContentLength(PartLines(|img|)) == Some(|img|)
  {
    PartLinesProper(|img|);
    ReadHeadMessage(PartLines(|img|), img + CRLF);
    PartLength(|img|);
  }

  lemma PartLength(n: nat)
    requires n < USIZE_BOUND
    ensures ContentLength(PartLines(n)) == Some(n)
  {
    var ls := PartLines(n);
    assert ls[1][8] == 'T';
    NotLengthLine(ls[0], 0);
    NotLengthLine(ls[1], 8);
    ContentLengthAt(ls, 2, n);
  }

  /**
   * The open part has no empty line before the JPEG: a reader takes the
   * three header lines and runs on into the image, so it never finds the
   * JPEG and CRLF as the part's body.
   */
  lemma OpenPartHasNoBody(img: seq<byte>, lines: seq<string>)
    ensures ReadHead(OpenPart(img)) != Some((lines, img + CRLF))
  {
    PartLinesProper(|img|);
    LinesWithoutEnd(PartLines(|img|), img + CRLF, lines);
  }

  /** Header lines with no empty line after them never have the bytes that follow as their body. */
  lemma LinesWithoutEnd(ls: seq<string>, rest: seq<byte>, lines: seq<string>)
    requires ProperLines(ls)
    ensures ReadHead(Lines(ls) + rest) != Some((lines, rest))
  {
    ReadHeadAfterLines(ls, rest);
  }

  /** The earliest stream's part: `--frame`, the type, an empty line, the JPEG and CRLF. */
  function FramePart(img: seq<byte>): seq<byte> {
    Message([FRAME_DELIMITER, JPEG_TYPE], img + CRLF)
  }

  lemma FramePartReads(img: seq<byte>)
    ensures ReadHead(FramePart(img)) == Some(([FRAME_DELIMITER, JPEG_TYPE], img + CRLF))
  {
    DelimiterProper();
    JpegTypeProper();
    ReadHeadMessage([FRAME_DELIMITER, JPEG_TYPE], img + CRLF);
  }

  // ---------------------------------------------------------------------------
  // The snapshot reply of the web routes
  // ---------------------------------------------------------------------------

  /** A reply built with the web framework: status, `Content-Type`, body. */
  datatype Reply = Reply(status: nat, contentType: string, body: seq<byte>)

  /** `snapshot_handler`: the cached frame as a JPEG, or 404 with type `none` and an empty body. */
  function SnapshotReply(frame: Option<seq<byte>>): (r: Reply)
    ensures r.status == 200 <==> frame.Some?
    ensures frame.Some? ==> r == Reply(200, "image/jpeg", frame.value)
    ensures frame.None? ==> r == Reply(404, "none", [])
  {
    match frame
    case Some(data) => Reply(200, "image/jpeg", data)
    case None => Reply(404, "none", [])
  }
}
