/**
 * The relay's cache update (`server/src/main.rs`): `mjpeg_stream` polls the
 * frame reader and writes every item it yields into the shared cache, where
 * the metadata text is a record of seven `x`-separated parts
 * `width x height x format x encoder x server fps x server frames x skip`;
 * `attach_socket` raises the cache's skip flag when it cannot connect, and
 * `snapshot_handler` serves the cached frame.
 */
module ServerMain {
  import opened Wrappers
  import opened Bytes
  import opened Text
  import opened Utf8
  import opened ServerImg
  import opened Http

  /** The loop gives up after this many polls in a row that yielded nothing. */
  const MISSED_LIMIT: nat := 100
  const RECORD_PARTS: nat := 7

  /** Everything the cache holds, as one value. */
  datatype Cache = Cache(
    frame: Option<seq<byte>>,
    width: nat,
    height: nat,
    clientFps: nat,
    clientTotalFrames: nat,
    serverFps: nat,
    serverTotalFrames: nat,
    encoder: string,
    format: string,
    skip: bool)

  /**
   * The cache after a metadata text. Only a text of exactly seven parts is
   * applied; in it, a number that does not parse keeps the old value, the
   * format and the encoder are taken verbatim, and skip is set exactly when
   * the last part is `1`.
   */
  function ApplyMetadata(c: Cache, m: string): (r: Cache)
    ensures r.frame == c.frame && r.clientFps == c.clientFps && r.clientTotalFrames == c.clientTotalFrames
    ensures |Split(m, "x")| != RECORD_PARTS ==> r == c
    ensures |Split(m, "x")| == RECORD_PARTS ==>
      var parts := Split(m, "x");
      && r.format == parts[2] && r.encoder == parts[3]
      && (r.skip <==> parts[6] == "1")
      && (ParseUnsigned(parts[0], U32_BOUND).None? ==> r.width == c.width)
      && (ParseUnsigned(parts[1], U32_BOUND).None? ==> r.height == c.height)
      && (ParseUnsigned(parts[4], USIZE_BOUND).None? ==> r.serverFps == c.serverFps)
      && (ParseUnsigned(parts[5], USIZE_BOUND).None? ==> r.serverTotalFrames == c.serverTotalFrames)
    ensures r.width == c.width || r.width < U32_BOUND
    ensures r.height == c.height || r.height < U32_BOUND
  {
    var parts := Split(m, "x");
    if |parts| != RECORD_PARTS then c
    else
      c.(width := ParseUnsigned(parts[0], U32_BOUND).UnwrapOr(c.width),
         height := ParseUnsigned(parts[1], U32_BOUND).UnwrapOr(c.height),
         format := parts[2],
         encoder := parts[3],
         serverFps := ParseUnsigned(parts[4], USIZE_BOUND).UnwrapOr(c.serverFps),
         serverTotalFrames := ParseUnsigned(parts[5], USIZE_BOUND).UnwrapOr(c.serverTotalFrames),
         skip := parts[6] == "1")
  }

  /**
   * The cache after one received item: a non-empty payload becomes the
   * frame, every item counts as a received frame, and metadata is applied.
   */
  function ApplyItem(c: Cache, item: Item): (r: Cache)
    ensures r.frame == (if |item.payload| > 0 then Some(item.payload) else c.frame)
    ensures r.clientTotalFrames == c.clientTotalFrames + 1
    ensures r.clientFps == c.clientFps
    ensures item.metadata.None? ==> r == c.(frame := r.frame, clientTotalFrames := r.clientTotalFrames)
  {
    var counted := c.(frame := if |item.payload| > 0 then Some(item.payload) else c.frame,
                      clientTotalFrames := c.clientTotalFrames + 1);
    match item.metadata
    case None => counted
    case Some(m) => ApplyMetadata(counted, m)
  }

  /** The figures of a record as a producer would write them. */
  datatype Figures = Figures(
    width: nat, height: nat, format: string, encoder: string,
    serverFps: nat, serverTotalFrames: nat, skip: bool)

  function SkipPart(skip: bool): string {
    if skip then "1" else "0"
  }

  function RecordParts(f: Figures): (parts: seq<string>)
    ensures |parts| == RECORD_PARTS
  {
    [Decimal(f.width), Decimal(f.height), f.format, f.encoder,
     Decimal(f.serverFps), Decimal(f.serverTotalFrames), SkipPart(f.skip)]
  }

  /** The metadata text for these figures: decimal numbers and the two names, joined by `x`. */
  function Record(f: Figures): string {
    Join(RecordParts(f), "x")
  }

  /** Figures the record can carry: numbers in range, names without `x` or NUL. */
  predicate Representable(f: Figures) {
    && f.width < U32_BOUND && f.height < U32_BOUND
    && f.serverFps < USIZE_BOUND && f.serverTotalFrames < USIZE_BOUND
    && 'x' !in f.format && 'x' !in f.encoder
    && 0 as char !in f.format && 0 as char !in f.encoder
  }

  /** The cache with these figures in place. */
  function WithFigures(c: Cache, f: Figures): Cache {
    c.(width := f.width, height := f.height, format := f.format, encoder := f.encoder,
       serverFps := f.serverFps, serverTotalFrames := f.serverTotalFrames, skip := f.skip)
  }

  /** Applying a record written from representable figures installs exactly those figures. */
  lemma ApplyRecord(c: Cache, f: Figures)
    requires Representable(f)
    ensures ApplyMetadata(c, Record(f)) == WithFigures(c, f)
  {
    var parts := RecordParts(f);
    forall k, j | 0 <= k < |parts| && 0 <= j < |parts[k]| ensures parts[k][j] != 'x' {
      if k == 2 || k == 3 {
        assert parts[k][j] in parts[k];
      }
    }
    assert forall k :: 0 <= k < |parts| ==> 'x' !in parts[k];
    SplitJoin(parts, 'x');
    ParseDecimal(f.width, U32_BOUND);
    ParseDecimal(f.height, U32_BOUND);
    ParseDecimal(f.serverFps, USIZE_BOUND);
    ParseDecimal(f.serverTotalFrames, USIZE_BOUND);
  }

  /** A record contains no NUL, is not empty, and starts with a digit. */
  lemma RecordText(f: Figures)
    requires Representable(f)
    ensures 0 as char !in Record(f) && Record(f) != []
  {
    var parts := RecordParts(f);
    forall k | 0 <= k < |parts| ensures 0 as char !in parts[k] {
      if k != 2 && k != 3 {
        assert forall j :: 0 <= j < |parts[k]| ==> IsDigit(parts[k][j]);
      }
    }
    JoinAvoids(parts, "x", 0 as char);
    assert Record(f) == parts[0] + "x" + Join(parts[1..], "x");
  }

  /**
   * A whole frame whose metadata block holds a record, read off the socket
   * and applied: the payload becomes the frame, one more frame is counted,
   * and the cache carries the record's figures.
   */
  lemma ReceiveRecord(c: Cache, payload: seq<byte>, f: Figures, rest: seq<byte>)
    requires 0 < |payload| < Pow256(LENGTH_BYTES)
    requires Representable(f) && |Encode(Record(f))| <= METADATA_BYTES
    ensures var st := DecodeFrame(FrameBytes(payload, MetadataBlock(Record(f))) + rest);
      |payload| <= ISIZE_MAX ==>
      && st.Step? && st.item.Some? && st.rest == rest
      && ApplyItem(c, st.item.value)
         == WithFigures(c, f).(frame := Some(payload), clientTotalFrames := c.clientTotalFrames + 1)
  {
    var text := Record(f);
    DecodeFrameBytes(payload, MetadataBlock(text), rest);
    RecordText(f);
    forall i | 0 <= i < |text| ensures text[i] as int != 0 {
      assert text[i] in text;
    }
    MetadataRoundTrip(text);
    var counted := c.(frame := Some(payload), clientTotalFrames := c.clientTotalFrames + 1);
    ApplyRecord(counted, f);
  }

  /** Once the cache holds a frame, no item takes it away. */
  lemma FrameStaysSet(c: Cache, item: Item)
    requires c.frame.Some?
    ensures ApplyItem(c, item).frame.Some?
  {
  }

  // ---------------------------------------------------------------------------
  // The polling loop
  // ---------------------------------------------------------------------------

  /** The loop's state: the cache, the frames counted this second, and the polls missed in a row. */
  datatype LoopState = LoopState(cache: Cache, fps: nat, missed: nat)

  /** The once-a-second check: the client rate becomes the mean of the old rate and this second's count. */
  function Clock(c: Cache, second: bool, fps: nat): Cache {
    if second then c.(clientFps := (c.clientFps + fps) / 2) else c
  }

  /**
   * One pass of the loop: when a second has elapsed the client frame rate
   * becomes the mean of the old rate and this second's count, which starts
   * again at 0; then the poll's result is applied or counted as missed.
   */
  function Tick(l: LoopState, second: bool, item: Option<Item>): (r: LoopState)
    ensures item.Some? ==> r.missed == 0
    ensures item.None? ==> r.missed == l.missed + 1 && r.cache.clientTotalFrames == l.cache.clientTotalFrames
    ensures item.Some? ==> r.cache.clientTotalFrames == l.cache.clientTotalFrames + 1
    ensures r.cache.clientFps == if second then (l.cache.clientFps + l.fps) / 2 else l.cache.clientFps
    ensures r.fps == (if second then 0 else l.fps) + (if item.Some? then 1 else 0)
    ensures l.cache.frame.Some? ==> r.cache.frame.Some?
  {
    var c := Clock(l.cache, second, l.fps);
    var fps := if second then 0 else l.fps;
    match item
    case Some(it) => LoopState(ApplyItem(c, it), fps + 1, 0)
    case None => LoopState(c, fps, l.missed + 1)
  }

  /** Tick in terms of the clock check, one received item or one miss. */
  lemma TickUnfolds(l: LoopState, second: bool, item: Option<Item>)
    ensures item.Some? ==>
      Tick(l, second, item) == LoopState(ApplyItem(Clock(l.cache, second, l.fps), item.value), (if second then 0 else l.fps) + 1, 0)
    ensures item.None? ==>
      Tick(l, second, item) == LoopState(Clock(l.cache, second, l.fps), if second then 0 else l.fps, l.missed + 1)
  {
  }

  /** The state after the loop has seen these poll results; `second(i)` is the clock at pass `i`. */
  function Ticks(start: LoopState, items: seq<Option<Item>>, second: nat -> bool): LoopState {
    if items == [] then start
    else Tick(Ticks(start, items[..|items| - 1], second), second(|items| - 1), items[|items| - 1])
  }

  function CountSome(items: seq<Option<Item>>): nat {
    if items == [] then 0 else CountSome(items[..|items| - 1]) + (if items[|items| - 1].Some? then 1 else 0)
  }

  /** The number of polls at the end of `items` that yielded nothing. */
  function TrailingNones(items: seq<Option<Item>>): nat {
    if items == [] || items[|items| - 1].Some? then 0 else TrailingNones(items[..|items| - 1]) + 1
  }

  /** The received-frame counter rises by exactly the number of items received. */
  lemma {:induction false} TotalCountsItems(start: LoopState, items: seq<Option<Item>>, second: nat -> bool)
    ensures Ticks(start, items, second).cache.clientTotalFrames == start.cache.clientTotalFrames + CountSome(items)
  {
    if items != [] {
      TotalCountsItems(start, items[..|items| - 1], second);
    }
  }

  /** Starting from no misses, the miss counter is the number of unanswered polls since the last item. */
  lemma {:induction false} MissedIsTrailingNones(start: LoopState, items: seq<Option<Item>>, second: nat -> bool)
    requires start.missed == 0
    ensures Ticks(start, items, second).missed == TrailingNones(items)
  {
    if items != [] {
      MissedIsTrailingNones(start, items[..|items| - 1], second);
    }
  }

  /** If the stream is already over, every poll yields nothing and the socket is left alone. */
  lemma {:induction false} PollsAfterEnd(r: Reader, n: nat)
    requires r.Overflowed? || r.finished
    ensures Polls(r, n).1 == r
    ensures forall k :: 0 <= k < n ==> Polls(r, n).0[k].None?
  {
    if n > 0 {
      PollsAfterEnd(r, n - 1);
    }
  }

  // ---------------------------------------------------------------------------
  // The shared cache
  // ---------------------------------------------------------------------------

  /** The `ImageData` behind the relay's lock, with its `skip` flag. */
  class SharedImage {
    var frame: Option<seq<byte>>
    var width: nat
    var height: nat
    var clientFps: nat
    var clientTotalFrames: nat
    var serverFps: nat
    var serverTotalFrames: nat
    var encoder: string
    var format: string
    var skip: bool

    function View(): Cache
      reads this
    {
      Cache(frame, width, height, clientFps, clientTotalFrames, serverFps, serverTotalFrames, encoder, format, skip)
    }

    /** `ImageData::new()`, with the skip flag it starts with. */
    constructor (skip: bool)
      ensures var d := NewImageData();
        View() == Cache(d.frame, d.width, d.height, d.clientFps, d.clientTotalFrames,
                        d.serverFps, d.serverTotalFrames, d.encoder, d.format, skip)
    {
      var d := NewImageData();
      frame := d.frame;
      width := d.width;
      height := d.height;
      clientFps := d.clientFps;
      clientTotalFrames := d.clientTotalFrames;
      serverFps := d.serverFps;
      serverTotalFrames := d.serverTotalFrames;
      encoder := d.encoder;
      format := d.format;
      this.skip := skip;
    }

    /** The failed-connect branch of `attach_socket`: raise the skip flag, change nothing else. */
    method AttachFailed()
      modifies this
      ensures View() == old(View()).(skip := true)
    {
      skip := true;
    }

    /** The received-item branch of `mjpeg_stream`, under the write lock. */
    method Apply(item: Item)
      modifies this
      ensures View() == ApplyItem(old(View()), item)
    {
      if |item.payload| > 0 {
        frame := Some(item.payload);
      }
      clientTotalFrames := clientTotalFrames + 1;
      if item.metadata.Some? {
        ApplyRecordText(item.metadata.value);
      }
    }

    /** The metadata part of that branch: split the text on `x` and take a record of seven parts. */
    method ApplyRecordText(m: string)
      modifies this
      ensures View() == ApplyMetadata(old(View()), m)
    {
      var parts := Split(m, "x");
      if |parts| == RECORD_PARTS {
        width := ParseUnsigned(parts[0], U32_BOUND).UnwrapOr(width);
        height := ParseUnsigned(parts[1], U32_BOUND).UnwrapOr(height);
        format := parts[2];
        encoder := parts[3];
        serverFps := ParseUnsigned(parts[4], USIZE_BOUND).UnwrapOr(serverFps);
        serverTotalFrames := ParseUnsigned(parts[5], USIZE_BOUND).UnwrapOr(serverTotalFrames);
        skip := parts[6] == "1";
      }
    }

    /**
     * `mjpeg_stream`: poll `stream` until more than `MISSED_LIMIT` polls in a
     * row have yielded nothing, updating the cache on every pass. `second(i)`
     * says whether a second had elapsed at pass `i`; `n` is the number of
     * passes. The cache ends as the loop's specification says, and the loop
     * did not stop any earlier.
     */
    method MjpegStream(stream: StreamState, second: nat -> bool) returns (ghost n: nat)
      requires !stream.panicked
      modifies this, stream, stream.socket
      ensures var r0 := old(stream.State());
        var start := LoopState(old(View()), 0, 0);
        && stream.State() == Polls(r0, n).1
        && View() == Ticks(start, Polls(r0, n).0, second).cache
        && (stream.panicked || Ticks(start, Polls(r0, n).0, second).missed == MISSED_LIMIT + 1)
        && n > 0
        && forall k :: 0 <= k < n ==>
             Ticks(start, Polls(r0, k).0, second).missed <= MISSED_LIMIT && Polls(r0, k).1.Reader?
    {
      ghost var r0 := stream.State();
      ghost var start := LoopState(View(), 0, 0);
      var fps: nat := 0;
      var missed: nat := 0;
      var pass: nat := 0;
      n := 0;
      while true
        invariant pass == n
        invariant missed <= MISSED_LIMIT
        invariant Polls(r0, n).1 == stream.State() && !stream.panicked
        invariant Ticks(start, Polls(r0, n).0, second) == LoopState(View(), fps, missed)
        invariant forall k :: 0 <= k < n ==>
          Ticks(start, Polls(r0, k).0, second).missed <= MISSED_LIMIT && Polls(r0, k).1.Reader?
        decreases |stream.socket.data|, MISSED_LIMIT - missed
      {
        ghost var before := Polls(r0, n);
        assert before.1.Reader? && Ticks(start, before.0, second).missed <= MISSED_LIMIT;
        ghost var earlier := n;
        var item;
        item, fps, missed := Pass(stream, second(pass), fps, missed);
        TicksSnoc(start, before.0, item, second);
        pass := pass + 1;
        n := n + 1;
        forall k | 0 <= k < n
          ensures Ticks(start, Polls(r0, k).0, second).missed <= MISSED_LIMIT && Polls(r0, k).1.Reader?
        {
          if k == earlier {
            assert Polls(r0, k) == before;
          }
        }
        if stream.panicked || missed > MISSED_LIMIT {
          break;
        }
      }
    }

    /** One pass of `mjpeg_stream`'s loop: the clock check, one poll, and its effect on the cache. */
    method Pass(stream: StreamState, second: bool, fps: nat, missed: nat)
      returns (item: Option<Item>, fps': nat, missed': nat)
      requires !stream.panicked
      modifies this, stream, stream.socket
      ensures (item, stream.State()) == Poll(old(stream.State()))
      ensures LoopState(View(), fps', missed') == Tick(LoopState(old(View()), fps, missed), second, item)
    {
      ghost var l := LoopState(old(View()), fps, missed);
      ghost var r0 := stream.State();
      fps' := ClockCheck(second, fps);
      assert stream.State() == r0;
      ghost var c := View();
      item := stream.Next();
      ghost var r1 := stream.State();
      assert View() == c && (item, r1) == Poll(r0);
      fps', missed' := Receive(item, fps', missed);
      assert stream.State() == r1;
      TickUnfolds(l, second, item);
    }

    /** The rest of the pass: a received item is applied and counted, a miss is counted. */
    method Receive(item: Option<Item>, fps: nat, missed: nat) returns (fps': nat, missed': nat)
      modifies this
      ensures item.Some? ==> View() == ApplyItem(old(View()), item.value) && fps' == fps + 1 && missed' == 0
      ensures item.None? ==> View() == old(View()) && fps' == fps && missed' == missed + 1
    {
      if item.Some? {
        Apply(item.value);
        fps', missed' := fps + 1, 0;
      } else {
        fps', missed' := fps, missed + 1;
      }
    }

    /** The once-a-second branch of the loop. */
    method ClockCheck(second: bool, fps: nat) returns (fps': nat)
      modifies this
      ensures View() == Clock(old(View()), second, fps)
      ensures fps' == if second then 0 else fps
    {
      fps' := fps;
      if second {
        clientFps := (clientFps + fps) / 2;
        fps' := 0;
      }
    }
  }

  /** Appending a poll result to the loop's history is one more pass. */
  lemma TicksSnoc(start: LoopState, items: seq<Option<Item>>, item: Option<Item>, second: nat -> bool)
    ensures Ticks(start, items + [item], second) == Tick(Ticks(start, items, second), second(|items|), item)
  {
    assert (items + [item])[..|items|] == items;
  }

  /** After a received item with a payload, the snapshot is that payload; an empty payload changes nothing. */
  lemma SnapshotServesLatest(c: Cache, item: Item)
    ensures |item.payload| > 0 ==> SnapshotReply(ApplyItem(c, item).frame) == Reply(200, "image/jpeg", item.payload)
    ensures |item.payload| == 0 ==> SnapshotReply(ApplyItem(c, item).frame) == SnapshotReply(c.frame)
  {
  }
}
