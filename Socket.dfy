/**
 * A byte stream read with `read_exact`, as the frame readers use it: the
 * bytes still to arrive are a sequence, and a read either takes the next
 * `n` of them or, when fewer are left, fails at the end of the stream.
 */
module Socket {
  import opened Bytes

  /**
   * The outcome of `read_exact` into an `n`-byte zeroed buffer: whether it
   * succeeded, what the buffer holds afterwards, and what is left to read.
   */
  datatype ReadResult = ReadResult(ok: bool, buf: seq<byte>, rest: seq<byte>)

  /**
   * `read_exact(&mut [0u8; n])` on a stream holding `s`. When the stream ends
   * early the buffer keeps the bytes that did arrive, followed by the zeros
   * it was created with, and the stream is used up.
   */
  function ReadExact(s: seq<byte>, n: nat): (r: ReadResult)
    ensures |r.buf| == n
    ensures r.ok <==> n <= |s|
    ensures r.ok ==> r.buf + r.rest == s
    ensures !r.ok ==> r.rest == [] && r.buf == s + Zeros(n - |s|)
    ensures |r.rest| <= |s| && r.rest == s[|s| - |r.rest|..]
  {
    if n <= |s| then
      assert s[..n] + s[n..] == s;
      ReadResult(true, s[..n], s[n..])
    else ReadResult(false, s + Zeros(n - |s|), [])
  }

  /** A connected stream socket; `data` is what the peer has yet to deliver. */
  class Socket {
    var data: seq<byte>

    constructor (incoming: seq<byte>)
      ensures data == incoming
    {
      data := incoming;
    }

    /** `read_exact` into a fresh `n`-byte buffer. */
    method Read(n: nat) returns (buf: seq<byte>, ok: bool)
      modifies this
      ensures ReadExact(old(data), n) == ReadResult(ok, buf, data)
    {
      if n <= |data| {
        buf := data[..n];
        data := data[n..];
        ok := true;
      } else {
        buf := data + Zeros(n - |data|);
        data := [];
        ok := false;
      }
    }
  }
}
