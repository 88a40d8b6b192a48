/**
 * The web routes of `server/src/axum_pages/mod.rs`: `mjpeg_page`, which
 * registers the viewer, replies at once with the multipart head and feeds
 * the body from a spawned loop over a channel, and `snapshot_handler`
 * (`Http.SnapshotReply`). The JSON pages are not part of this model.
 */
module AxumPages {
  import opened Wrappers
  import opened Bytes
  import opened Text
  import opened Http
  import opened Client
  import opened Viewer

  /** The line the page registers the viewer with: the request's path and query, or `/stream`. */
  function RequestLine(pathAndQuery: Option<string>): (line: string)
    ensures pathAndQuery.Some? ==> line == pathAndQuery.value
    ensures pathAndQuery.None? ==> line == "/stream"
  {
    pathAndQuery.UnwrapOr("/stream")
  }

  /** The head of the reply: a status and header fields, named as the framework spells them. */
  datatype Head = Head(status: nat, fields: seq<(string, string)>)

  const STREAM_TYPE: string := "multipart/x-mixed-replace; " + "boundary=" + BOUNDARY

  /** `200` with no caching, keep-alive, the multipart type and a chunked body. */
  const STREAM_HEAD: Head := Head(200, [
    ("cache-control", Join(CACHE_DIRECTIVES, ", ")),
    ("pragma", "no-cache"),
    ("expires", "Mon, 3 Jan 2000 12:34:56 GMT"),
    ("connection", "keep-alive"),
    ("content-type", STREAM_TYPE),
    ("transfer-encoding", "chunked")])

  /** `mjpeg_page`: the reply head, the chunks the loop sends on the channel, and how the loop ended. */
  method MjpegPage(pathAndQuery: Option<string>, registry: Clients, id: string, found: Option<Settings>, passes: seq<Pass>)
    returns (head: Head, sent: seq<seq<byte>>, ending: Outcome)
    requires registry.Valid() && registry.maxClients >= 1
    modifies registry
    ensures registry.Valid() && registry.maxClients == old(registry.maxClients)
    ensures head == STREAM_HEAD
    ensures var effs := Trace(Axum, SettingsOrDefault(found), START, passes);
      sent == Written(effs) && ending == LastOutcome(effs) &&
      registry.stats == AfterSession(old(registry.stats), old(registry.maxClients), RequestLine(pathAndQuery), id, ending == Break)
  {
    var line := RequestLine(pathAndQuery);
    var _ := registry.AddClientFromHeader(line, id);
    var effs := Session(Axum, SettingsOrDefault(found), passes);
    sent := Written(effs);
    ending := LastOutcome(effs);
    if ending == Break {
      registry.RemoveClientFromHeader(line);
    }
    head := STREAM_HEAD;
  }

  /**
   * The page hands the key parser a path and query with no method or
   * version around it, so there is no second token and the key is never
   * found: every viewer of this route is filed under `"0"`, and its removal
   * takes out the oldest `"0"` session.
   */
  lemma PathHasNoKey(path: string, id: string)
    requires NoWhitespace(path)
    ensures ParseKeyFromHeader(path).None?
    ensures FromHeader(path, id).key == "0"
  {
    OneToken(path);
  }
}
