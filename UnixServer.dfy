/**
 * `connection_handler` of the socket server (`server/src/unix/mod.rs`): the
 * first request line picks a route by prefix, and each route writes its
 * response on the connection. The stream route registers the viewer, writes
 * the multipart head, runs the viewer loop and, when the loop breaks, takes
 * the viewer out of the registry again.
 *
 * The cache as read, the date, the two JSON bodies, the generated id, the
 * cookie pair and the stored settings are inputs; so are the outcomes of the
 * socket writes, folded into the loop's passes.
 */
module UnixServer {
  import opened Wrappers
  import opened Bytes
  import opened Text
  import opened Utf8
  import opened Http
  import opened Client
  import opened Viewer

  datatype Route = SnapshotRoute | StreamRoute | StateRoute | UStateRoute | Unknown

  const SNAPSHOT_PREFIX: string := "GET /snapshot " + "HTTP/1.1"
  const STREAM_PREFIX: string := "GET /stream"
  const STATE_PREFIX: string := "GET /state"
  const USTATE_PREFIX: string := "GET /ustate"

  /** The route of a request line: the first prefix, in this order, that the line starts with. */
  function RouteOf(line: string): (r: Route)
    ensures r == SnapshotRoute <==> StartsWith(line, SNAPSHOT_PREFIX)
    ensures r == StreamRoute <==> !StartsWith(line, SNAPSHOT_PREFIX) && StartsWith(line, STREAM_PREFIX)
    ensures r == StateRoute <==>
      !StartsWith(line, SNAPSHOT_PREFIX) && !StartsWith(line, STREAM_PREFIX) && StartsWith(line, STATE_PREFIX)
    ensures r == UStateRoute <==>
      !StartsWith(line, SNAPSHOT_PREFIX) && !StartsWith(line, STREAM_PREFIX) && !StartsWith(line, STATE_PREFIX) &&
      StartsWith(line, USTATE_PREFIX)
  {
    if StartsWith(line, SNAPSHOT_PREFIX) then SnapshotRoute
    else if StartsWith(line, STREAM_PREFIX) then StreamRoute
    else if StartsWith(line, STATE_PREFIX) then StateRoute
    else if StartsWith(line, USTATE_PREFIX) then UStateRoute
    else Unknown
  }

  /** How the handler ended: it returned, the viewer loop is still running, or the task panicked. */
  datatype Ending = Done | StreamOpen | Panicked

  /** The response of the snapshot route: the cached JPEG, or `503` when nothing is cached. */
  function SnapshotBytes(frame: Option<seq<byte>>, date: string): (r: seq<byte>)
    ensures frame.None? ==> r == StatusOnly(UNAVAILABLE)
    ensures frame.Some? ==> r == SnapshotResponse(date, frame.value)
  {
    match frame
    case Some(img) => SnapshotResponse(date, img)
    case None => StatusOnly(UNAVAILABLE)
  }

  /** The single response of every route but the stream. */
  function Response(route: Route, frame: Option<seq<byte>>, date: string, stateJson: string, ustateJson: string): seq<byte> {
    match route
    case SnapshotRoute => SnapshotBytes(frame, date)
    case StateRoute => JsonResponse(date, stateJson)
    case UStateRoute => JsonResponse(date, ustateJson)
    case _ => StatusOnly(NOT_FOUND)
  }

  /** How the handler ends once the viewer loop has stopped, or has not. */
  function StreamEnding(effs: seq<Effect>): Ending {
    match LastOutcome(effs)
    case Continue => StreamOpen
    case Break => Done
    case Panic => Panicked
  }

  /** `connection_handler`: one connection, from its first line to the end of its response. */
  method ConnectionHandler(
      line: Option<string>, frame: Option<seq<byte>>, date: string, stateJson: string, ustateJson: string,
      registry: Clients, id: string, cookie: (string, string), found: Option<Settings>, headerOk: bool, passes: seq<Pass>)
    returns (written: seq<seq<byte>>, ending: Ending)
    requires registry.Valid() && registry.maxClients >= 1
    modifies registry
    ensures registry.Valid() && registry.maxClients == old(registry.maxClients)
    ensures line.None? ==> written == [] && ending == Done && registry.stats == old(registry.stats)
    ensures line.Some? && RouteOf(line.value) != StreamRoute ==>
      ending == Done && registry.stats == old(registry.stats) &&
      written == [Response(RouteOf(line.value), frame, date, stateJson, ustateJson)]
    ensures line.Some? && RouteOf(line.value) == StreamRoute ==>
      var effs := Trace(Unix, SettingsOrDefault(found), START, passes);
      registry.stats == AfterSession(old(registry.stats), old(registry.maxClients), line.value, id, headerOk && LastOutcome(effs) == Break) &&
      (!headerOk ==> written == [] && ending == Panicked) &&
      (headerOk ==> written == [StreamHeader(cookie.1, cookie.0)] + Written(effs) && ending == StreamEnding(effs))
  {
    if line.None? {
      return [], Done;
    }
    var route := RouteOf(line.value);
    if route == StreamRoute {
      written, ending := ServeStream(line.value, registry, id, cookie, found, headerOk, passes);
    } else {
      written := [Response(route, frame, date, stateJson, ustateJson)];
      ending := Done;
    }
  }

  /** The stream route: register, write the head, run the loop, and deregister once it breaks. */
  method ServeStream(line: string, registry: Clients, id: string, cookie: (string, string), found: Option<Settings>, headerOk: bool, passes: seq<Pass>)
    returns (written: seq<seq<byte>>, ending: Ending)
    requires registry.Valid() && registry.maxClients >= 1
    modifies registry
    ensures registry.Valid() && registry.maxClients == old(registry.maxClients)
    ensures var effs := Trace(Unix, SettingsOrDefault(found), START, passes);
      registry.stats == AfterSession(old(registry.stats), old(registry.maxClients), line, id, headerOk && LastOutcome(effs) == Break) &&
      (!headerOk ==> written == [] && ending == Panicked) &&
      (headerOk ==> written == [StreamHeader(cookie.1, cookie.0)] + Written(effs) && ending == StreamEnding(effs))
  {
    var _ := registry.AddClientFromHeader(line, id);
    if !headerOk {
      return [], Panicked;
    }
    written := [StreamHeader(cookie.1, cookie.0)];
    var effs := Session(Unix, SettingsOrDefault(found), passes);
    written := written + Written(effs);
    ending := StreamEnding(effs);
    if LastOutcome(effs) == Break {
      registry.RemoveClientFromHeader(line);
    }
  }

  /** Each prefix reaches its own route, whatever follows it on the line: no earlier test shadows it. */
  lemma RoutesByPrefix(rest: string)
    ensures RouteOf(SNAPSHOT_PREFIX + rest) == SnapshotRoute
    ensures RouteOf(STREAM_PREFIX + rest) == StreamRoute
    ensures RouteOf(STATE_PREFIX + rest) == StateRoute
    ensures RouteOf(USTATE_PREFIX + rest) == UStateRoute
  {
    PrefixOf(SNAPSHOT_PREFIX, rest);
    PrefixOf(STREAM_PREFIX, rest);
    PrefixOf(STATE_PREFIX, rest);
    PrefixOf(USTATE_PREFIX, rest);
    assert SNAPSHOT_PREFIX[6] == 'n' && STREAM_PREFIX[6] == 't' && STATE_PREFIX[6] == 't';
    assert STREAM_PREFIX[7] == 'r' && STATE_PREFIX[7] == 'a';
    assert USTATE_PREFIX[5] == 'u';
    Differs(STREAM_PREFIX + rest, SNAPSHOT_PREFIX, 6);
    Differs(STATE_PREFIX + rest, SNAPSHOT_PREFIX, 6);
    Differs(STATE_PREFIX + rest, STREAM_PREFIX, 7);
    Differs(USTATE_PREFIX + rest, SNAPSHOT_PREFIX, 5);
    Differs(USTATE_PREFIX + rest, STREAM_PREFIX, 5);
    Differs(USTATE_PREFIX + rest, STATE_PREFIX, 5);
  }

  lemma PrefixOf(prefix: string, rest: string)
    ensures StartsWith(prefix + rest, prefix)
  {
    assert (prefix + rest)[..|prefix|] == prefix;
  }

  lemma Differs(s: string, prefix: string, i: nat)
    requires i < |s| && i < |prefix| && s[i] != prefix[i]
    ensures !StartsWith(s, prefix)
  {
  }

  /**
   * The snapshot route's response reads back as a head and a body: the
   * cached JPEG with a `Content-Length` of its size, or a bare `503`.
   */
  lemma SnapshotRouteReads(frame: Option<seq<byte>>, date: string)
    requires NoLineBreak(date) && (frame.Some? ==> |frame.value| < USIZE_BOUND)
    ensures frame.Some? ==>
      ReadHead(SnapshotBytes(frame, date)) == Some((SnapshotLines(date, |frame.value|), frame.value)) &&
      ContentLength(SnapshotLines(date, |frame.value|)) == Some(|frame.value|)
    ensures frame.None? ==> ReadHead(SnapshotBytes(frame, date)) == Some(([UNAVAILABLE], []))
  {
    if frame.Some? {
      SnapshotResponseReads(date, frame.value);
    } else {
      UnavailableProper();
      StatusOnlyReads(UNAVAILABLE);
    }
  }

  /** Any other line gets a bare `404`: a status line, the empty line, no body. */
  lemma UnknownRouteReads(frame: Option<seq<byte>>, date: string, stateJson: string, ustateJson: string)
    ensures ReadHead(Response(Unknown, frame, date, stateJson, ustateJson)) == Some(([NOT_FOUND], []))
  {
    NotFoundProper();
    StatusOnlyReads(NOT_FOUND);
  }

  /** What the stream route writes reads as the stream head, then a body made of exactly the chunks the loop wrote. */
  lemma StreamBytesRead(cookie: (string, string), chunks: seq<seq<byte>>)
    requires NoLineBreak(cookie.0) && NoLineBreak(cookie.1)
    ensures ReadHead(Concat([StreamHeader(cookie.1, cookie.0)] + chunks)) ==
      Some((StreamHeaderLines(cookie.1, cookie.0), Concat(chunks)))
  {
    ConcatCons(StreamHeader(cookie.1, cookie.0), chunks);
    StreamHeaderReads(cookie.1, cookie.0, Concat(chunks));
  }
}
