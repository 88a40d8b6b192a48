/**
 * The earlier relay (`src/server/mod.rs`), over the `ImageData` of
 * `src/server/img/mod.rs`. Its cache update takes a record of six
 * `x`-separated parts and has no skip flag; its socket handler routes like
 * the later one, but the viewer loop has no skip or dual-frame logic, every
 * chunk carries `X-Timestamp`, and the cache must hold a frame whenever the
 * loop reads it. Its web route sends `--frame` parts.
 */
module ServerOld {
  import opened Wrappers
  import opened Bytes
  import opened Text
  import opened Http
  import opened ServerImg
  import opened Client
  import opened Viewer
  import opened UnixServer
  import opened AxumPages
  import ServerMain

  const RECORD_PARTS: nat := 6

  // ---------------------------------------------------------------------------
  // The cache update
  // ---------------------------------------------------------------------------

  /**
   * The cache after a metadata text. Only a text of exactly six parts is
   * applied; in it, a number that does not parse keeps the old value and the
   * format and the encoder are taken verbatim.
   */
  function ApplyMetadata(d: ImageData, m: string): (r: ImageData)
    ensures r.frame == d.frame && r.clientFps == d.clientFps && r.clientTotalFrames == d.clientTotalFrames
    ensures |Split(m, "x")| != RECORD_PARTS ==> r == d
    ensures |Split(m, "x")| == RECORD_PARTS ==>
      var parts := Split(m, "x");
      && r.format == parts[2] && r.encoder == parts[3]
      && (ParseUnsigned(parts[0], U32_BOUND).None? ==> r.width == d.width)
      && (ParseUnsigned(parts[1], U32_BOUND).None? ==> r.height == d.height)
      && (ParseUnsigned(parts[4], USIZE_BOUND).None? ==> r.serverFps == d.serverFps)
      && (ParseUnsigned(parts[5], USIZE_BOUND).None? ==> r.serverTotalFrames == d.serverTotalFrames)
    ensures r.width == d.width || r.width < U32_BOUND
    ensures r.height == d.height || r.height < U32_BOUND
  {
    var parts := Split(m, "x");
    if |parts| != RECORD_PARTS then d
    else
      d.(width := ParseUnsigned(parts[0], U32_BOUND).UnwrapOr(d.width),
         height := ParseUnsigned(parts[1], U32_BOUND).UnwrapOr(d.height),
         format := parts[2],
         encoder := parts[3],
         serverFps := ParseUnsigned(parts[4], USIZE_BOUND).UnwrapOr(d.serverFps),
         serverTotalFrames := ParseUnsigned(parts[5], USIZE_BOUND).UnwrapOr(d.serverTotalFrames))
  }

  /** The cache after one received item: the frame if the payload is not empty, the count, the metadata. */
  function ApplyItem(d: ImageData, item: Item): (r: ImageData)
    ensures r.frame == (if |item.payload| > 0 then Some(item.payload) else d.frame)
    ensures r.clientTotalFrames == d.clientTotalFrames + 1
    ensures r.clientFps == d.clientFps
    ensures item.metadata.None? ==> r == d.(frame := r.frame, clientTotalFrames := r.clientTotalFrames)
  {
    var counted := d.(frame := if |item.payload| > 0 then Some(item.payload) else d.frame,
                      clientTotalFrames := d.clientTotalFrames + 1);
    match item.metadata
    case None => counted
    case Some(m) => ApplyMetadata(counted, m)
  }

  /** The figures of a six-part record. */
  datatype Figures = Figures(
    width: nat, height: nat, format: string, encoder: string, serverFps: nat, serverTotalFrames: nat)

  function RecordParts(f: Figures): (parts: seq<string>)
    ensures |parts| == RECORD_PARTS
  {
    [Decimal(f.width), Decimal(f.height), f.format, f.encoder, Decimal(f.serverFps), Decimal(f.serverTotalFrames)]
  }

  /** The metadata text for these figures. */
  function Record(f: Figures): string {
    Join(RecordParts(f), "x")
  }

  /** Figures the record can carry: numbers in range, names without `x`. */
  predicate Representable(f: Figures) {
    && f.width < U32_BOUND && f.height < U32_BOUND
    && f.serverFps < USIZE_BOUND && f.serverTotalFrames < USIZE_BOUND
    && 'x' !in f.format && 'x' !in f.encoder
  }

  function WithFigures(d: ImageData, f: Figures): ImageData {
    d.(width := f.width, height := f.height, format := f.format, encoder := f.encoder,
       serverFps := f.serverFps, serverTotalFrames := f.serverTotalFrames)
  }

  /** Applying a six-part record written from representable figures installs exactly those figures. */
  lemma ApplyRecord(d: ImageData, f: Figures)
    requires Representable(f)
    ensures ApplyMetadata(d, Record(f)) == WithFigures(d, f)
  {
    var parts := RecordParts(f);
    forall k, j | 0 <= k < |parts| && 0 <= j < |parts[k]| ensures parts[k][j] != 'x' {
      if k == 2 || k == 3 {
        assert parts[k][j] in parts[k];
      }
    }
    assert forall k :: 0 <= k < |parts| ==> 'x' !in parts[k];
    SplitJoin(parts, 'x');
    ParseDecimal(f.width, U32_BOUND);
    ParseDecimal(f.height, U32_BOUND);
    ParseDecimal(f.serverFps, USIZE_BOUND);
    ParseDecimal(f.serverTotalFrames, USIZE_BOUND);
  }

  /**
   * The seven-part record of the later producer, with its skip part, has
   * one part too many for this revision: the earlier relay ignores it.
   */
  lemma SevenPartRecordIgnored(d: ImageData, f: ServerMain.Figures)
    requires ServerMain.Representable(f)
    ensures ApplyMetadata(d, ServerMain.Record(f)) == d
  {
    var parts := ServerMain.RecordParts(f);
    forall k, j | 0 <= k < |parts| && 0 <= j < |parts[k]| ensures parts[k][j] != 'x' {
      if k == 2 || k == 3 {
        assert parts[k][j] in parts[k];
      }
    }
    assert forall k :: 0 <= k < |parts| ==> 'x' !in parts[k];
    SplitJoin(parts, 'x');
  }

  // ---------------------------------------------------------------------------
  // The polling loop
  // ---------------------------------------------------------------------------

  datatype LoopState = LoopState(image: ImageData, fps: nat, missed: nat)

  /** The clock check: once a second has elapsed the client rate becomes the mean of the old rate and this second's count. */
  function Clock(d: ImageData, second: bool, fps: nat): ImageData {
    if second then d.(clientFps := (d.clientFps + fps) / 2) else d
  }

  /**
   * One pass of this revision's `mjpeg_stream`. The clock is looked at only
   * when an item arrives: then the client frame rate may become the mean of
   * the old rate and this second's count, and the item is applied. A poll
   * that yields nothing only counts as missed.
   */
  function Tick(l: LoopState, second: bool, item: Option<Item>): (r: LoopState)
    ensures item.None? ==> r == l.(missed := l.missed + 1)
    ensures item.Some? ==> r.missed == 0 && r.image.clientTotalFrames == l.image.clientTotalFrames + 1
    ensures item.Some? ==> r.image.clientFps == (if second then (l.image.clientFps + l.fps) / 2 else l.image.clientFps)
    ensures item.Some? ==> r.fps == (if second then 0 else l.fps) + 1
  {
    match item
    case None => l.(missed := l.missed + 1)
    case Some(it) =>
      LoopState(ApplyItem(Clock(l.image, second, l.fps), it), (if second then 0 else l.fps) + 1, 0)
  }

  function Ticks(start: LoopState, items: seq<Option<Item>>, second: nat -> bool): LoopState {
    if items == [] then start
    else Tick(Ticks(start, items[..|items| - 1], second), second(|items| - 1), items[|items| - 1])
  }

  lemma TicksSnoc(start: LoopState, items: seq<Option<Item>>, item: Option<Item>, second: nat -> bool)
    ensures Ticks(start, items + [item], second) == Tick(Ticks(start, items, second), second(|items|), item)
  {
    assert (items + [item])[..|items|] == items;
  }

  /** The received-frame counter rises by exactly the number of items received. */
  lemma {:induction false} TotalCountsItems(start: LoopState, items: seq<Option<Item>>, second: nat -> bool)
    ensures Ticks(start, items, second).image.clientTotalFrames == start.image.clientTotalFrames + ServerMain.CountSome(items)
  {
    if items != [] {
      TotalCountsItems(start, items[..|items| - 1], second);
    }
  }

  /** Starting from no misses, the miss counter is the number of unanswered polls since the last item. */
  lemma {:induction false} MissedIsTrailingNones(start: LoopState, items: seq<Option<Item>>, second: nat -> bool)
    requires start.missed == 0
    ensures Ticks(start, items, second).missed == ServerMain.TrailingNones(items)
  {
    if items != [] {
      MissedIsTrailingNones(start, items[..|items| - 1], second);
    }
  }

  /** The `ImageData` behind this revision's lock. */
  class OldImage {
    var frame: Option<seq<byte>>
    var width: nat
    var height: nat
    var clientFps: nat
    var clientTotalFrames: nat
    var serverFps: nat
    var serverTotalFrames: nat
    var encoder: string
    var format: string

    function View(): ImageData
      reads this
    {
      ImageData(frame, width, height, clientFps, clientTotalFrames, serverFps, serverTotalFrames, encoder, format)
    }

    /** `ImageData::new()`. */
    constructor ()
      ensures View() == NewImageData()
    {
      var d := NewImageData();
      frame := d.frame;
      width := d.width;
      height := d.height;
      clientFps := d.clientFps;
      clientTotalFrames := d.clientTotalFrames;
      serverFps := d.serverFps;
      serverTotalFrames := d.serverTotalFrames;
      encoder := d.encoder;
      format := d.format;
    }

    /** The received-item branch of `mjpeg_stream`, after the clock check. */
    method Apply(item: Item)
      modifies this
      ensures View() == ApplyItem(old(View()), item)
    {
      if |item.payload| > 0 {
        frame := Some(item.payload);
      }
      clientTotalFrames := clientTotalFrames + 1;
      if item.metadata.Some? {
        ApplyRecordText(item.metadata.value);
      }
    }

    /** The metadata part of that branch: split the text on `x` and take a record of six parts. */
    method ApplyRecordText(m: string)
      modifies this
      ensures View() == ApplyMetadata(old(View()), m)
    {
      var parts := Split(m, "x");
      if |parts| == RECORD_PARTS {
        width := ParseUnsigned(parts[0], U32_BOUND).UnwrapOr(width);
        height := ParseUnsigned(parts[1], U32_BOUND).UnwrapOr(height);
        format := parts[2];
        encoder := parts[3];
        serverFps := ParseUnsigned(parts[4], USIZE_BOUND).UnwrapOr(serverFps);
        serverTotalFrames := ParseUnsigned(parts[5], USIZE_BOUND).UnwrapOr(serverTotalFrames);
      }
    }

    /**
     * `mjpeg_stream`: poll until more than `MISSED_LIMIT` polls in a row
     * have yielded nothing. `second(i)` is the clock at pass `i` and `n` the
     * number of passes.
     */
    method MjpegStream(stream: StreamState, second: nat -> bool) returns (ghost n: nat)
      requires !stream.panicked
      modifies this, stream, stream.socket
      ensures var r0 := old(stream.State());
        var start := LoopState(old(View()), 0, 0);
        && stream.State() == Polls(r0, n).1
        && View() == Ticks(start, Polls(r0, n).0, second).image
        && (stream.panicked || Ticks(start, Polls(r0, n).0, second).missed == ServerMain.MISSED_LIMIT + 1)
        && n > 0
        && forall k :: 0 <= k < n ==>
             Ticks(start, Polls(r0, k).0, second).missed <= ServerMain.MISSED_LIMIT && Polls(r0, k).1.Reader?
    {
      ghost var r0 := stream.State();
      ghost var start := LoopState(View(), 0, 0);
      var fps: nat := 0;
      var missed: nat := 0;
      var pass: nat := 0;
      n := 0;
      while true
        invariant pass == n
        invariant missed <= ServerMain.MISSED_LIMIT
        invariant Polls(r0, n).1 == stream.State() && !stream.panicked
        invariant Ticks(start, Polls(r0, n).0, second) == LoopState(View(), fps, missed)
        invariant forall k :: 0 <= k < n ==>
          Ticks(start, Polls(r0, k).0, second).missed <= ServerMain.MISSED_LIMIT && Polls(r0, k).1.Reader?
        decreases |stream.socket.data|, ServerMain.MISSED_LIMIT - missed
      {
        ghost var before := Polls(r0, n);
        assert before.1.Reader? && Ticks(start, before.0, second).missed <= ServerMain.MISSED_LIMIT;
        ghost var earlier := n;
        var item;
        item, fps, missed := Pass(stream, second(pass), fps, missed);
        assert Polls(r0, n + 1) == (before.0 + [item], stream.State());
        TicksSnoc(start, before.0, item, second);
        pass := pass + 1;
        n := n + 1;
        forall k | 0 <= k < n
          ensures Ticks(start, Polls(r0, k).0, second).missed <= ServerMain.MISSED_LIMIT && Polls(r0, k).1.Reader?
        {
          if k == earlier {
            assert Polls(r0, k) == before;
          }
        }
        if stream.panicked || missed > ServerMain.MISSED_LIMIT {
          break;
        }
      }
    }

    /** One pass of the loop: one poll and, for a received item, the clock check and the update. */
    method Pass(stream: StreamState, second: bool, fps: nat, missed: nat)
      returns (item: Option<Item>, fps': nat, missed': nat)
      requires !stream.panicked
      modifies this, stream, stream.socket
      ensures (item, stream.State()) == Poll(old(stream.State()))
      ensures LoopState(View(), fps', missed') == Tick(LoopState(old(View()), fps, missed), second, item)
    {
      ghost var l := LoopState(old(View()), fps, missed);
      ghost var r0 := stream.State();
      item := stream.Next();
      ghost var r1 := stream.State();
      assert (item, r1) == Poll(r0);
      if item.Some? {
        fps' := ClockCheck(second, fps);
        ghost var d := View();
        fps' := fps' + 1;
        missed' := 0;
        Apply(item.value);
        assert Tick(l, second, item) == LoopState(ApplyItem(d, item.value), fps', 0);
      } else {
        fps' := fps;
        missed' := missed + 1;
      }
      assert stream.State() == r1;
    }

    /** The clock check of a received item's branch. */
    method ClockCheck(second: bool, fps: nat) returns (fps': nat)
      modifies this
      ensures View() == Clock(old(View()), second, fps)
      ensures fps' == if second then 0 else fps
    {
      fps' := fps;
      if second {
        clientFps := (clientFps + fps) / 2;
        fps' := 0;
      }
    }
  }

  // ---------------------------------------------------------------------------
  // The viewer loop of the socket handler
  // ---------------------------------------------------------------------------

  /** What one pass takes from outside: the clock, the lock timeout, the cached frame, the socket, the registry. */
  datatype OldPass = OldPass(
    second: bool,
    acquired: bool,
    frame: Option<seq<byte>>,
    timestamp: string,
    writeOk: bool,
    flushOk: bool,
    clientFound: bool)

  datatype OldState = OldState(prev: Option<seq<byte>>, first: bool, fps: nat)

  const OLD_START: OldState := OldState(None, true, 0)

  /**
   * One pass: the first pass reads the cache without a timeout, later ones
   * within 100 ms or else reuse the previous chunk; a read frame must be
   * there. The chunk is then written and flushed.
   */
  function OldStep(st: OldState, p: OldPass): (OldState, Effect) {
    var report := if p.second then Some(st.fps) else None;
    var fps := (if p.second then 0 else st.fps) + 1;
    if st.prev.None? || p.acquired then
      if p.frame.None? then (st.(fps := fps), Effect(report, None, Panic))
      else
        var chunk := TimedPart(p.frame.value, p.timestamp);
        Deliver(st.(prev := Some(chunk), fps := fps), p, chunk, report)
    else Deliver(st.(fps := fps), p, st.prev.value, report)
  }

  /** Write and flush the chunk; after the first one, the viewer must still be registered. */
  function Deliver(st: OldState, p: OldPass, chunk: seq<byte>, report: Option<nat>): (OldState, Effect) {
    if !p.writeOk then (st, Effect(report, None, Break))
    else if !p.flushOk then (st, Effect(report, Some(chunk), Break))
    else if st.first then (st.(first := false), Effect(report, Some(chunk), if p.clientFound then Continue else Break))
    else (st, Effect(report, Some(chunk), Continue))
  }

  function OldTrace(st: OldState, passes: seq<OldPass>): (effs: seq<Effect>)
    ensures |effs| <= |passes|
    decreases |passes|
  {
    if passes == [] then []
    else
      var (next, e) := OldStep(st, passes[0]);
      [e] + (if e.outcome == Continue then OldTrace(next, passes[1..]) else [])
  }

  /** The loop over the passes, stopping at the first that ends it. */
  method OldSession(passes: seq<OldPass>) returns (effects: seq<Effect>)
    ensures effects == OldTrace(OLD_START, passes)
  {
    var prev: Option<seq<byte>> := None;
    var first := true;
    var fps: nat := 0;
    effects := [];
    var i := 0;
    while i < |passes|
      invariant 0 <= i <= |passes|
      invariant OldTrace(OLD_START, passes) == effects + OldTrace(OldState(prev, first, fps), passes[i..])
      decreases |passes| - i
    {
      OldTraceAt(OldState(prev, first, fps), passes, i);
      var e;
      prev, first, fps, e := OldRunPass(prev, first, fps, passes[i]);
      AppendAssoc(effects, [e], if e.outcome == Continue then OldTrace(OldState(prev, first, fps), passes[i + 1..]) else []);
      effects := effects + [e];
      if e.outcome != Continue {
        return;
      }
      i := i + 1;
    }
  }

  lemma OldTraceAt(st: OldState, passes: seq<OldPass>, i: nat)
    requires i < |passes|
    ensures OldTrace(st, passes[i..]) ==
      var (next, e) := OldStep(st, passes[i]);
      [e] + (if e.outcome == Continue then OldTrace(next, passes[i + 1..]) else [])
  {
    assert passes[i..][0] == passes[i] && passes[i..][1..] == passes[i + 1..];
  }

  /** One iteration of the loop body over the loop's variables. */
  method OldRunPass(prev: Option<seq<byte>>, first: bool, fps: nat, p: OldPass)
    returns (prev': Option<seq<byte>>, first': bool, fps': nat, e: Effect)
    ensures (OldState(prev', first', fps'), e) == OldStep(OldState(prev, first, fps), p)
  {
    prev', first', fps' := prev, first, fps;
    var report: Option<nat> := None;
    if p.second {
      report := Some(fps');
      fps' := 0;
    }
    fps' := fps' + 1;
    var frame: seq<byte>;
    if prev'.None? || p.acquired {
      if p.frame.None? {
        return prev', first', fps', Effect(report, None, Panic);
      }
      frame := TimedPart(p.frame.value, p.timestamp);
      prev' := Some(frame);
    } else {
      frame := prev'.value;
    }
    if !p.writeOk {
      return prev', first', fps', Effect(report, None, Break);
    }
    if !p.flushOk {
      return prev', first', fps', Effect(report, Some(frame), Break);
    }
    e := Effect(report, Some(frame), Continue);
    if first' {
      first' := false;
      if !p.clientFound {
        e := Effect(report, Some(frame), Break);
      }
    }
  }

  /** The first pass needs a cached frame: without one the task panics before writing anything. */
  lemma FirstPassNeedsFrame(p: OldPass)
    ensures p.frame.None? ==> OldTrace(OLD_START, [p]) == [Effect(if p.second then Some(0) else None, None, Panic)]
    ensures p.frame.Some? && p.writeOk ==>
      OldTrace(OLD_START, [p])[0].write == Some(TimedPart(p.frame.value, p.timestamp))
  {
  }

  /** When a later read times out, the previous chunk is written again, byte for byte. */
  lemma TimeoutReusesChunk(st: OldState, p: OldPass)
    requires st.prev.Some? && !p.acquired
    ensures OldStep(st, p).0.prev == st.prev
    ensures OldStep(st, p).1.write == (if p.writeOk then st.prev else None)
    ensures OldStep(st, p).1.outcome != Panic
  {
  }

  /** A failed write or flush always ends the loop; a successful one never does after the first pass. */
  lemma FailureEnds(st: OldState, p: OldPass)
    requires OldStep(st, p).1.outcome != Panic
    ensures !p.writeOk || !p.flushOk ==> OldStep(st, p).1.outcome == Break
    ensures p.writeOk && p.flushOk && !st.first ==> OldStep(st, p).1.outcome == Continue
  {
  }

  /** A chunk with the `X-Timestamp` line, whatever the payload and the time. */
  ghost predicate IsTimedPart(w: seq<byte>) {
    exists img: seq<byte>, ts: string :: w == TimedPart(img, ts)
  }

  /**
   * Every chunk this loop writes carries `X-Timestamp`, and with no skip
   * logic every pass that lets the loop go on has written one.
   */
  lemma {:induction false} EveryChunkTimed(st: OldState, passes: seq<OldPass>)
    requires st.prev.Some? ==> IsTimedPart(st.prev.value)
    ensures forall k :: 0 <= k < |Written(OldTrace(st, passes))| ==> IsTimedPart(Written(OldTrace(st, passes))[k])
    ensures LastOutcome(OldTrace(st, passes)) == Continue ==> |Written(OldTrace(st, passes))| == |passes|
    decreases |passes|
  {
    if passes != [] {
      var p := passes[0];
      var (next, e) := OldStep(st, p);
      var rest := if e.outcome == Continue then OldTrace(next, passes[1..]) else [];
      assert OldTrace(st, passes) == [e] + rest;
      assert ([e] + rest)[1..] == rest;
      var head := if e.write.Some? then [e.write.value] else [];
      assert Written([e] + rest) == head + Written(rest);
      if st.prev.None? || p.acquired {
        if p.frame.Some? {
          assert next.prev.Some? && next.prev.value == TimedPart(p.frame.value, p.timestamp);
          assert e.write.Some? ==> e.write.value == TimedPart(p.frame.value, p.timestamp);
        }
      } else {
        assert next.prev == st.prev;
      }
      if e.outcome == Continue {
        EveryChunkTimed(next, passes[1..]);
        assert LastOutcome([e] + rest) == (if rest == [] then Continue else LastOutcome(rest));
      }
    }
  }

  // ---------------------------------------------------------------------------
  // The socket handler of this revision
  // ---------------------------------------------------------------------------

  /** How the stream route ends, from the loop's effects. */
  method ServeOldStream(line: string, registry: Clients, id: string, cookie: (string, string), headerOk: bool, passes: seq<OldPass>)
    returns (written: seq<seq<byte>>, ending: Ending)
    requires registry.Valid() && registry.maxClients >= 1
    modifies registry
    ensures registry.Valid() && registry.maxClients == old(registry.maxClients)
    ensures var effs := OldTrace(OLD_START, passes);
      registry.stats == AfterSession(old(registry.stats), old(registry.maxClients), line, id, headerOk && LastOutcome(effs) == Break) &&
      (!headerOk ==> written == [] && ending == Panicked) &&
      (headerOk ==> written == [StreamHeader(cookie.1, cookie.0)] + Written(effs) && ending == StreamEnding(effs))
  {
    var _ := registry.AddClientFromHeader(line, id);
    if !headerOk {
      return [], Panicked;
    }
    written := [StreamHeader(cookie.1, cookie.0)];
    var effs := OldSession(passes);
    written := written + Written(effs);
    ending := StreamEnding(effs);
    if LastOutcome(effs) == Break {
      registry.RemoveClientFromHeader(line);
    }
  }

  /** `connection_handler` of this revision: the same routes and responses, the older stream loop. */
  method OldConnectionHandler(
      line: Option<string>, frame: Option<seq<byte>>, date: string, stateJson: string, ustateJson: string,
      registry: Clients, id: string, cookie: (string, string), headerOk: bool, passes: seq<OldPass>)
    returns (written: seq<seq<byte>>, ending: Ending)
    requires registry.Valid() && registry.maxClients >= 1
    modifies registry
    ensures registry.Valid() && registry.maxClients == old(registry.maxClients)
    ensures line.None? ==> written == [] && ending == Done && registry.stats == old(registry.stats)
    ensures line.Some? && RouteOf(line.value) != StreamRoute ==>
      ending == Done && registry.stats == old(registry.stats) &&
      written == [Response(RouteOf(line.value), frame, date, stateJson, ustateJson)]
    ensures line.Some? && RouteOf(line.value) == StreamRoute ==>
      var effs := OldTrace(OLD_START, passes);
      registry.stats == AfterSession(old(registry.stats), old(registry.maxClients), line.value, id, headerOk && LastOutcome(effs) == Break) &&
      (!headerOk ==> written == [] && ending == Panicked) &&
      (headerOk ==> written == [StreamHeader(cookie.1, cookie.0)] + Written(effs) && ending == StreamEnding(effs))
  {
    if line.None? {
      return [], Done;
    }
    var route := RouteOf(line.value);
    if route == StreamRoute {
      written, ending := ServeOldStream(line.value, registry, id, cookie, headerOk, passes);
    } else {
      written := [Response(route, frame, date, stateJson, ustateJson)];
      ending := Done;
    }
  }

  // ---------------------------------------------------------------------------
  // The web route of this revision
  // ---------------------------------------------------------------------------

  const FRAME_HEAD: Head := Head(200, [
    ("content-type", "multipart/x-mixed-replace; " + "boundary=frame"),
    ("transfer-encoding", "chunked")])

  /**
   * What one poll of this revision's `mjpeg_page` stream yields: a `--frame`
   * part with only a type header when a frame is cached, else an empty chunk.
   */
  function PageChunk(frame: Option<seq<byte>>): (c: seq<byte>)
    ensures frame.None? ==> c == []
    ensures frame.Some? ==> ReadHead(c) == Some(([FRAME_DELIMITER, JPEG_TYPE], frame.value + CRLF))
  {
    match frame
    case None => []
    case Some(img) => FramePartReads(img); FramePart(img)
  }
}
