/**
 * The frame transport reader of `src/server/img/mod.rs` and the cache record
 * it fills. On the socket, one frame is an 8-byte big-endian payload length,
 * the payload, and a 512-byte metadata block: UTF-8 text padded with NUL
 * bytes, whose first byte is 0 when there is no metadata.
 */
module ServerImg {
  import opened Wrappers
  import opened Bytes
  import opened Utf8
  import opened Socket

  const LENGTH_BYTES: nat := 8
  const METADATA_BYTES: nat := 512

  /** One item of the stream: the payload and the metadata text, if any. */
  datatype Item = Item(payload: seq<byte>, metadata: Option<string>)

  /**
   * What one step of the stream yields, and what is left on the socket after
   * it; or the panic of a step whose announced length cannot be allocated.
   */
  datatype Step = Step(item: Option<Item>, rest: seq<byte>) | Overflow

  /** `take_while(|&b| b != 0)`: the bytes before the first NUL. */
  function TakeUntilNul(s: seq<byte>): (r: seq<byte>)
    ensures |r| <= |s| && r == s[..|r|]
    ensures forall i :: 0 <= i < |r| ==> r[i] != 0
    ensures |r| < |s| ==> s[|r|] == 0
  {
    if s == [] || s[0] == 0 then [] else [s[0]] + TakeUntilNul(s[1..])
  }

  /**
   * The metadata a block carries: none when its first byte is 0, otherwise
   * the text before the first NUL, or the empty text when those bytes are
   * not UTF-8.
   */
  function Metadata(block: seq<byte>): (m: Option<string>)
    requires |block| > 0
    ensures m.None? <==> block[0] == 0
    ensures m.Some? ==> |m.value| <= |block|
    ensures m.Some? ==> forall i :: 0 <= i < |m.value| ==> m.value[i] as int != 0
  {
    if block[0] == 0 then None
    else Some(Decode(TakeUntilNul(block)).UnwrapOr(""))
  }

  /**
   * One step of the reader over the bytes `s` still on the socket. The
   * length comes from the prefix buffer even when its read failed, and
   * `vec![0u8; len]` panics on a length above `isize::MAX` before anything
   * more is read.
   */
  function DecodeFrame(s: seq<byte>): (st: Step)
    ensures st.Overflow? <==> BeValue(ReadExact(s, LENGTH_BYTES).buf) > ISIZE_MAX
    ensures st.Step? && st.item.Some? ==> |st.item.value.payload| > 0
    ensures st.Step? ==> |st.rest| <= |s| && st.rest == s[|s| - |st.rest|..]
    ensures st.Step? && st.item.Some? ==> |st.rest| + LENGTH_BYTES + |st.item.value.payload| + METADATA_BYTES == |s|
  {
    var len := ReadExact(s, LENGTH_BYTES);
    var size := BeValue(len.buf);
    var body := ReadExact(len.rest, size);
    if size > ISIZE_MAX then Overflow
    else if !body.ok || size == 0 then
      Step(None, body.rest)
    else
      var meta := ReadExact(body.rest, METADATA_BYTES);
      if !meta.ok then Step(None, meta.rest)
      else Step(Some(Item(body.buf, Metadata(meta.buf))), meta.rest)
  }

  /**
   * The state of the fused stream: what the socket still holds and whether
   * the stream is over, or a stream whose last poll panicked.
   */
  datatype Reader = Reader(data: seq<byte>, finished: bool) | Overflowed

  /**
   * One poll of the fused stream: once over, it yields nothing and reads
   * nothing; a step that overflows panics. A panicked stream is never polled
   * again, and polling it here yields nothing only to keep `Poll` total.
   */
  function Poll(r: Reader): (p: (Option<Item>, Reader))
    ensures r.Overflowed? || r.finished ==> p == (None, r)
    ensures p.1.Overflowed? <==> r.Overflowed? || (!r.finished && DecodeFrame(r.data).Overflow?)
    ensures p.1.Overflowed? ==> p.0.None?
    ensures r.Reader? && p.1.Reader? ==> (p.1.finished <==> r.finished || p.0.None?)
    ensures r.Reader? && p.1.Reader? ==> |p.1.data| <= |r.data|
    ensures p.0.Some? ==> r.Reader? && p.1.Reader? && |p.1.data| < |r.data|
  {
    match r
    case Overflowed => (None, r)
    case Reader(data, finished) =>
      if finished then (None, r)
      else
        match DecodeFrame(data)
        case Overflow => (None, Overflowed)
        case Step(item, rest) => (item, Reader(rest, item.None?))
  }

  /** The items of the first `n` polls, in order, and the state of the stream after them. */
  function Polls(r: Reader, n: nat): (p: (seq<Option<Item>>, Reader))
    ensures |p.0| == n
  {
    if n == 0 then ([], r)
    else
      var (items, after) := Polls(r, n - 1);
      var (item, next) := Poll(after);
      (items + [item], next)
  }

  /** Polling a panicked stream leaves it panicked. */
  lemma PollKeepsPanic(r: Reader)
    ensures Poll(r).1.Reader? ==> r.Reader?
  {
  }

  /** A panicked stream stays panicked: a stream still reading after `n` polls was reading after every earlier one. */
  lemma {:induction false} NoEarlierPanic(r: Reader, n: nat, k: nat)
    requires k <= n && Polls(r, n).1.Reader?
    ensures Polls(r, k).1.Reader?
    decreases n
  {
    if k < n {
      var before := Polls(r, n - 1).1;
      assert Polls(r, n).1 == Poll(before).1;
      PollKeepsPanic(before);
      NoEarlierPanic(r, n - 1, k);
    }
  }

  /** The bytes a producer sends for one frame with this payload and metadata block. */
  function FrameBytes(payload: seq<byte>, block: seq<byte>): seq<byte> {
    Be(|payload|, LENGTH_BYTES) + payload + block
  }

  /**
   * A whole frame yields its payload and its metadata, and consumes exactly
   * its `8 + |payload| + 512` bytes, unless its length is above `isize::MAX`,
   * where the step panics.
   */
  lemma DecodeFrameBytes(payload: seq<byte>, block: seq<byte>, rest: seq<byte>)
    requires 0 < |payload| < Pow256(LENGTH_BYTES) && |block| == METADATA_BYTES
    ensures |payload| <= ISIZE_MAX ==>
      DecodeFrame(FrameBytes(payload, block) + rest) == Step(Some(Item(payload, Metadata(block))), rest)
    ensures |payload| > ISIZE_MAX ==> DecodeFrame(FrameBytes(payload, block) + rest) == Overflow
    ensures |FrameBytes(payload, block)| == LENGTH_BYTES + |payload| + METADATA_BYTES
  {
    var prefix := Be(|payload|, LENGTH_BYTES);
    var s := FrameBytes(payload, block) + rest;
    BeValueOfBe(|payload|, LENGTH_BYTES);
    assert s == prefix + (payload + (block + rest));
    assert ReadExact(s, LENGTH_BYTES).buf == prefix;
    assert ReadExact(s, LENGTH_BYTES).rest == payload + (block + rest);
    assert (payload + (block + rest))[..|payload|] == payload;
    assert (payload + (block + rest))[|payload|..] == block + rest;
    assert (block + rest)[..|block|] == block;
    assert (block + rest)[|block|..] == rest;
  }

  /** A zero length ends the stream: it is not an empty frame. */
  lemma ZeroLengthEnds(rest: seq<byte>)
    ensures DecodeFrame(Zeros(LENGTH_BYTES) + rest) == Step(None, rest)
  {
    var s := Zeros(LENGTH_BYTES) + rest;
    assert s[..LENGTH_BYTES] == Zeros(LENGTH_BYTES);
    assert s[LENGTH_BYTES..] == rest;
    BeValueZeros(LENGTH_BYTES);
  }

  /**
   * A stream that ends inside the length prefix: the failed read is ignored
   * and the length comes from the partly filled buffer. When the first byte
   * that arrived has its top bit set, that length is above `isize::MAX` and
   * the step panics. Otherwise the step yields nothing, since the length is
   * either 0 or more than the (now empty) socket holds.
   */
  lemma ShortPrefixEnds(s: seq<byte>)
    requires |s| < LENGTH_BYTES
    ensures s == [] || s[0] < 0x80 ==> DecodeFrame(s) == Step(None, [])
    ensures s != [] && s[0] >= 0x80 ==> DecodeFrame(s) == Overflow
  {
    BeValueAboveIsizeMax(ReadExact(s, LENGTH_BYTES).buf);
  }

  /** Any prefix announcing more than `isize::MAX` bytes panics, whatever follows it. */
  lemma HugeLengthPanics(prefix: seq<byte>, rest: seq<byte>)
    requires |prefix| == LENGTH_BYTES && BeValue(prefix) > ISIZE_MAX
    ensures DecodeFrame(prefix + rest) == Overflow
  {
    assert (prefix + rest)[..LENGTH_BYTES] == prefix;
  }

  /** A stream that ends inside the payload yields nothing, or panics when the length is above `isize::MAX`. */
  lemma ShortPayloadEnds(payload: seq<byte>, partial: seq<byte>)
    requires |payload| < Pow256(LENGTH_BYTES) && |partial| < |payload|
    ensures |payload| <= ISIZE_MAX ==> DecodeFrame(Be(|payload|, LENGTH_BYTES) + partial) == Step(None, [])
    ensures |payload| > ISIZE_MAX ==> DecodeFrame(Be(|payload|, LENGTH_BYTES) + partial) == Overflow
  {
    var prefix := Be(|payload|, LENGTH_BYTES);
    BeValueOfBe(|payload|, LENGTH_BYTES);
    assert (prefix + partial)[..LENGTH_BYTES] == prefix;
    assert (prefix + partial)[LENGTH_BYTES..] == partial;
    assert ReadExact(prefix + partial, LENGTH_BYTES) == ReadResult(true, prefix, partial);
    assert !ReadExact(partial, |payload|).ok;
  }

  /**
   * A stream that ends inside the metadata block yields nothing, even with
   * the whole payload read (`prefix` is any 8 bytes encoding the payload
   * size); a size above `isize::MAX` panics instead.
   */
  lemma ShortMetadataEnds(prefix: seq<byte>, payload: seq<byte>, partial: seq<byte>)
    requires |prefix| == LENGTH_BYTES && BeValue(prefix) == |payload| > 0 && |partial| < METADATA_BYTES
    ensures |payload| <= ISIZE_MAX ==> DecodeFrame(prefix + (payload + partial)) == Step(None, [])
    ensures |payload| > ISIZE_MAX ==> DecodeFrame(prefix + (payload + partial)) == Overflow
  {
    var s := prefix + (payload + partial);
    assert s[..LENGTH_BYTES] == prefix;
    assert s[LENGTH_BYTES..] == payload + partial;
    AfterPayload(payload, partial);
  }

  lemma AfterPayload(payload: seq<byte>, partial: seq<byte>)
    requires 0 < |payload|
    ensures ReadExact(payload + partial, |payload|) == ReadResult(true, payload, partial)
  {
    assert (payload + partial)[..|payload|] == payload;
    assert (payload + partial)[|payload|..] == partial;
  }

  /** The block a producer writes for a metadata text: its UTF-8 bytes, padded with NULs. */
  function MetadataBlock(text: string): (block: seq<byte>)
    requires |Encode(text)| <= METADATA_BYTES
    ensures |block| == METADATA_BYTES
  {
    Encode(text) + Zeros(METADATA_BYTES - |Encode(text)|)
  }

  /** The UTF-8 bytes of a text without NUL contain no zero byte, and a non-empty text has bytes. */
  lemma {:induction false} EncodeNoNul(text: string)
    requires forall i :: 0 <= i < |text| ==> text[i] as int != 0
    ensures forall i :: 0 <= i < |Encode(text)| ==> Encode(text)[i] != 0
    ensures text != [] ==> |Encode(text)| > 0 && Encode(text)[0] != 0
  {
    if text != [] {
      EncodeNoNul(text[1..]);
      var c := text[0] as int;
      var e := EncodeChar(text[0]);
      assert c >= 0x80 ==> e[0] >= 0xC0;
      assert forall i :: 1 <= i < |e| ==> e[i] >= 0x80;
    }
  }

  /** A non-empty metadata text without NUL survives the padded block unchanged. */
  lemma MetadataRoundTrip(text: string)
    requires text != [] && |Encode(text)| <= METADATA_BYTES
    requires forall i :: 0 <= i < |text| ==> text[i] as int != 0
    ensures Metadata(MetadataBlock(text)) == Some(text)
  {
    var e := Encode(text);
    var pad := Zeros(METADATA_BYTES - |e|);
    var block := MetadataBlock(text);
    assert block == e + pad;
    EncodeNoNul(text);
    assert block[0] == e[0] != 0;
    assert pad == [] || pad[0] == 0;
    TakeUntilNulPrefix(e, pad);
    DecodeEncode(text);
    assert Metadata(block) == Some(Decode(e).UnwrapOr(""));
  }

  lemma {:induction false} TakeUntilNulPrefix(e: seq<byte>, pad: seq<byte>)
    requires forall i :: 0 <= i < |e| ==> e[i] != 0
    requires pad == [] || pad[0] == 0
    ensures TakeUntilNul(e + pad) == e
  {
    if e != [] {
      assert (e + pad)[1..] == e[1..] + pad;
      TakeUntilNulPrefix(e[1..], pad);
    } else {
      assert e + pad == pad;
    }
  }

  /** A block that starts with a byte which cannot begin UTF-8 gives the empty text. */
  lemma InvalidMetadataIsEmpty(block: seq<byte>)
    requires |block| > 0 && 0x80 <= block[0] <= 0xC1
    ensures Metadata(block) == Some("")
  {
  }

  /** `ImageData`: the cached frame and what is known about the stream. */
  datatype ImageData = ImageData(
    frame: Option<seq<byte>>,
    width: nat,
    height: nat,
    clientFps: nat,
    clientTotalFrames: nat,
    serverFps: nat,
    serverTotalFrames: nat,
    encoder: string,
    format: string)

  /** `ImageData::new`: no frame yet, 1920x1080, every counter 0, no encoder and no format. */
  function NewImageData(): (d: ImageData)
    ensures d.frame.None? && d.width == 1920 && d.height == 1080
    ensures d.clientFps == 0 && d.clientTotalFrames == 0 && d.serverFps == 0 && d.serverTotalFrames == 0
    ensures d.encoder == "" && d.format == ""
  {
    ImageData(None, 1920, 1080, 0, 0, 0, 0, "", "")
  }

  /** `ImgStream`: a socket, and how many streams have been taken from it. */
  class ImgStream {
    const socket: Socket
    var counter: nat

    /** `ImgStream::new`. */
    constructor (socket: Socket)
      ensures this.socket == socket && counter == 0
    {
      this.socket := socket;
      counter := 0;
    }

    /** `get_stream`: a new stream, with its own step counter, over the same socket. */
    method GetStream() returns (st: StreamState)
      modifies this
      ensures fresh(st) && st.socket == socket && st.counter == 0 && !st.finished && !st.panicked
      ensures counter == old(counter) + 1
    {
      counter := counter + 1;
      st := new StreamState(socket);
    }
  }

  /**
   * `StreamState` together with the fused stream around it: once a step has
   * yielded nothing, the stream is over and later polls yield nothing
   * without touching the socket. `panicked` records a poll that panicked;
   * the task polling the stream ends with it.
   */
  class StreamState {
    const socket: Socket
    var counter: nat
    var finished: bool
    var panicked: bool

    constructor (socket: Socket)
      ensures this.socket == socket && counter == 0 && !finished && !panicked
    {
      this.socket := socket;
      counter := 0;
      finished := false;
      panicked := false;
    }

    /** The stream as `Poll` sees it. */
    function State(): Reader
      reads this, socket
    {
      if panicked then Overflowed else Reader(socket.data, finished)
    }

    /**
     * One poll of the stream: read a length, the payload and the metadata
     * block. A length above `isize::MAX` is the capacity-overflow panic.
     */
    method Next() returns (item: Option<Item>)
      requires !panicked
      modifies this, socket
      ensures (item, State()) == Poll(old(State()))
      ensures counter == old(counter) + (if old(finished) then 0 else 1)
    {
      if finished {
        return None;
      }
      counter := counter + 1;
      ghost var s := socket.data;
      var lenBuf, _ := socket.Read(LENGTH_BYTES);
      var len := BeValue(lenBuf);
      if len > ISIZE_MAX {
        item := None;
        panicked := true;
        assert DecodeFrame(s) == Overflow;
        return;
      }
      ghost var afterLen := socket.data;
      var buffer, ok := socket.Read(len);
      assert ReadExact(afterLen, len) == ReadResult(ok, buffer, socket.data);
      if !ok || len == 0 {
        item := None;
        finished := true;
        assert DecodeFrame(s) == Step(None, socket.data);
        return;
      }
      ghost var afterBody := socket.data;
      var metadataBuf, metaOk := socket.Read(METADATA_BYTES);
      if !metaOk {
        item := None;
        finished := true;
        assert DecodeFrame(s) == Step(None, socket.data);
        return;
      }
      if metadataBuf[0] == 0 {
        item := Some(Item(buffer, None));
      } else {
        var stripped := TakeUntilNul(metadataBuf);
        var content := Decode(stripped).UnwrapOr("");
        item := Some(Item(buffer, Some(content)));
      }
      assert item == Some(Item(buffer, Metadata(metadataBuf)));
      assert DecodeFrame(s) == Step(item, socket.data);
    }
  }
}
