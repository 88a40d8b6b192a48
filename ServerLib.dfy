/**
 * The library crate's frame reader (`server/src/lib.rs`): one frame is an 8-byte
 * big-endian payload length followed by the payload; there is no metadata
 * block.
 */
module ServerLib {
  import opened Wrappers
  import opened Bytes
  import opened Socket

  const LENGTH_BYTES: nat := 8

  /**
   * What one step of the stream yields, and what is left on the socket after
   * it; or the panic of a step whose announced length cannot be allocated.
   */
  datatype Step = Step(item: Option<seq<byte>>, rest: seq<byte>) | Overflow

  /**
   * One step of the reader over the bytes `s` still on the socket. The
   * length comes from the prefix buffer even when its read failed, and
   * `vec![0u8; len]` panics on a length above `isize::MAX`.
   */
  function DecodeFrame(s: seq<byte>): (st: Step)
    ensures st.Overflow? <==> BeValue(ReadExact(s, LENGTH_BYTES).buf) > ISIZE_MAX
    ensures st.Step? && st.item.Some? ==> |st.item.value| > 0
    ensures st.Step? ==> |st.rest| <= |s| && st.rest == s[|s| - |st.rest|..]
  {
    var len := ReadExact(s, LENGTH_BYTES);
    var size := BeValue(len.buf);
    if size > ISIZE_MAX then Overflow
    else
      var body := ReadExact(len.rest, size);
      Step(if body.ok && size > 0 then Some(body.buf) else None, body.rest)
  }

  /** The bytes a producer sends for one frame with this payload. */
  function FrameBytes(payload: seq<byte>): seq<byte> {
    Be(|payload|, LENGTH_BYTES) + payload
  }

  /**
   * A whole frame yields exactly its payload and consumes exactly
   * `8 + |payload|` bytes, unless its length is above `isize::MAX`, where the
   * step panics.
   */
  lemma DecodeFrameBytes(payload: seq<byte>, rest: seq<byte>)
    requires 0 < |payload| < Pow256(LENGTH_BYTES)
    ensures |payload| <= ISIZE_MAX ==> DecodeFrame(FrameBytes(payload) + rest) == Step(Some(payload), rest)
    ensures |payload| > ISIZE_MAX ==> DecodeFrame(FrameBytes(payload) + rest) == Overflow
  {
    var prefix := Be(|payload|, LENGTH_BYTES);
    BeValueOfBe(|payload|, LENGTH_BYTES);
    assert FrameBytes(payload) + rest == prefix + (payload + rest);
    DecodeAfterPrefix(prefix, payload, rest);
  }

  /**
   * Any 8 bytes encoding the payload size, then the payload, yield that
   * payload; a size above `isize::MAX` panics instead.
   */
  lemma DecodeAfterPrefix(prefix: seq<byte>, payload: seq<byte>, rest: seq<byte>)
    requires |prefix| == LENGTH_BYTES && BeValue(prefix) == |payload| > 0
    ensures |payload| <= ISIZE_MAX ==> DecodeFrame(prefix + (payload + rest)) == Step(Some(payload), rest)
    ensures |payload| > ISIZE_MAX ==> DecodeFrame(prefix + (payload + rest)) == Overflow
  {
    var s := prefix + (payload + rest);
    assert s[..LENGTH_BYTES] == prefix;
    assert s[LENGTH_BYTES..] == payload + rest;
    assert (payload + rest)[..|payload|] == payload;
    assert (payload + rest)[|payload|..] == rest;
  }

  /** A zero length yields nothing: it ends the stream. */
  lemma ZeroLengthEnds(rest: seq<byte>)
    ensures DecodeFrame(Zeros(LENGTH_BYTES) + rest) == Step(None, rest)
  {
    var s := Zeros(LENGTH_BYTES) + rest;
    assert s[..LENGTH_BYTES] == Zeros(LENGTH_BYTES);
    assert s[LENGTH_BYTES..] == rest;
    BeValueZeros(LENGTH_BYTES);
  }

  /**
   * A stream that ends inside the length prefix: the failed read is
   * swallowed and the length comes from the partly filled buffer. When the
   * first byte that arrived has its top bit set, that length is above
   * `isize::MAX` and the step panics; otherwise the step yields nothing.
   */
  lemma ShortPrefixEnds(s: seq<byte>)
    requires |s| < LENGTH_BYTES
    ensures s == [] || s[0] < 0x80 ==> DecodeFrame(s) == Step(None, [])
    ensures s != [] && s[0] >= 0x80 ==> DecodeFrame(s) == Overflow
  {
    BeValueAboveIsizeMax(ReadExact(s, LENGTH_BYTES).buf);
  }

  /** Any prefix announcing more than `isize::MAX` bytes panics, whatever follows it. */
  lemma HugeLengthPanics(prefix: seq<byte>, rest: seq<byte>)
    requires |prefix| == LENGTH_BYTES && BeValue(prefix) > ISIZE_MAX
    ensures DecodeFrame(prefix + rest) == Overflow
  {
    assert (prefix + rest)[..LENGTH_BYTES] == prefix;
  }

  /** A stream that ends inside the payload yields nothing, or panics when the length is above `isize::MAX`. */
  lemma ShortPayloadEnds(prefix: seq<byte>, partial: seq<byte>)
    requires |prefix| == LENGTH_BYTES && |partial| < BeValue(prefix)
    ensures BeValue(prefix) <= ISIZE_MAX ==> DecodeFrame(prefix + partial) == Step(None, [])
    ensures BeValue(prefix) > ISIZE_MAX ==> DecodeFrame(prefix + partial) == Overflow
  {
    assert (prefix + partial)[..LENGTH_BYTES] == prefix;
    assert (prefix + partial)[LENGTH_BYTES..] == partial;
  }

  /**
   * Frames sent one after another are read back one after another. A
   * payload held in a Rust `Vec` is at most `isize::MAX` bytes long.
   */
  lemma {:induction false} DecodeFrames(payloads: seq<seq<byte>>, rest: seq<byte>)
    requires forall k :: 0 <= k < |payloads| ==> 0 < |payloads[k]| <= ISIZE_MAX
    ensures ReadAll(AllFrameBytes(payloads) + rest, |payloads|) == (payloads, rest)
  {
    if payloads != [] {
      var s := AllFrameBytes(payloads) + rest;
      var tail := AllFrameBytes(payloads[1..]) + rest;
      assert s == FrameBytes(payloads[0]) + tail;
      DecodeFrameBytes(payloads[0], tail);
      DecodeFrames(payloads[1..], rest);
      ReadAllStep(s, |payloads|, payloads[0], tail);
      assert ReadAll(tail, |payloads| - 1) == (payloads[1..], rest);
      assert [payloads[0]] + payloads[1..] == payloads;
    } else {
      assert AllFrameBytes(payloads) + rest == rest;
    }
  }

  lemma ReadAllStep(s: seq<byte>, n: nat, p: seq<byte>, tail: seq<byte>)
    requires n > 0 && DecodeFrame(s) == Step(Some(p), tail)
    ensures ReadAll(s, n) == ([p] + ReadAll(tail, n - 1).0, ReadAll(tail, n - 1).1)
  {
  }

  function AllFrameBytes(payloads: seq<seq<byte>>): seq<byte> {
    if payloads == [] then [] else FrameBytes(payloads[0]) + AllFrameBytes(payloads[1..])
  }

  /**
   * The payloads of the first `n` steps, as long as each step yields one,
   * and the bytes left; a step that panics ends the reading where it began.
   */
  function ReadAll(s: seq<byte>, n: nat): (seq<seq<byte>>, seq<byte>)
    decreases n
  {
    if n == 0 then ([], s)
    else
      var st := DecodeFrame(s);
      if st.Overflow? then ([], s)
      else if st.item.None? then ([], st.rest)
      else
        var (more, rest) := ReadAll(st.rest, n - 1);
        ([st.item.value] + more, rest)
  }

  /** `ImageData`: the cached frame and the stream's figures. */
  datatype ImageData = ImageData(
    frame: Option<seq<byte>>,
    width: nat,
    height: nat,
    fps: nat,
    totalFrames: nat,
    format: string)

  /** `ImageData::new`: no frame yet, 1920x1080, `fps` and `total_frames` 0, no format. */
  function NewImageData(): (d: ImageData)
    ensures d.frame.None? && d.width == 1920 && d.height == 1080
    ensures d.fps == 0 && d.totalFrames == 0 && d.format == ""
  {
    ImageData(None, 1920, 1080, 0, 0, "")
  }

  /** `ImgStream`: the socket frames are read from. */
  class ImgStream {
    const socket: Socket

    constructor (socket: Socket)
      ensures this.socket == socket
    {
      this.socket := socket;
    }

    /** `get_stream`: a new stream over the same socket; it is the only way to read again after the end. */
    method GetStream() returns (st: LibStream)
      ensures fresh(st) && st.socket == socket && !st.finished && !st.panicked
    {
      st := new LibStream(socket);
    }
  }

  /**
   * The fused stream `get_stream` returns: over once a step has yielded
   * nothing. `panicked` records a poll that panicked; the task polling the
   * stream ends with it.
   */
  class LibStream {
    const socket: Socket
    var finished: bool
    var panicked: bool

    constructor (socket: Socket)
      ensures this.socket == socket && !finished && !panicked
    {
      this.socket := socket;
      finished := false;
      panicked := false;
    }

    /**
     * One poll of the stream: read a length, then that many payload bytes. A
     * length above `isize::MAX` is the capacity-overflow panic.
     */
    method Next() returns (item: Option<seq<byte>>)
      requires !panicked
      modifies this, socket
      ensures old(finished) ==> item.None? && finished && !panicked && socket.data == old(socket.data)
      ensures !old(finished) ==> (panicked <==> DecodeFrame(old(socket.data)).Overflow?)
      ensures !old(finished) && !panicked ==>
        Step(item, socket.data) == DecodeFrame(old(socket.data)) && finished == item.None?
    {
      if finished {
        return None;
      }
      var lenBuf, _ := socket.Read(LENGTH_BYTES);
      var len := BeValue(lenBuf);
      if len > ISIZE_MAX {
        item := None;
        panicked := true;
        return;
      }
      var buffer, ok := socket.Read(len);
      if ok && len > 0 {
        item := Some(buffer);
      } else {
        item := None;
        finished := true;
      }
    }
  }
}
