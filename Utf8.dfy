/**
 * UTF-8, as Rust's `String::from_utf8` checks it (the well-formed byte
 * sequences of table 3-7 of the Unicode Standard) and as `str::as_bytes`
 * produces it.
 */
module Utf8 {
  import opened Bytes
  import opened Wrappers

  predicate IsCont(b: byte) {
    0x80 <= b <= 0xBF
  }

  /** The length of the well-formed sequence that starts `s`; 0 when `s` does not start with one. */
  function FirstLength(s: seq<byte>): (n: nat)
    ensures n <= 4 && n <= |s|
    ensures |s| > 0 && s[0] < 0x80 ==> n == 1
  {
    if |s| == 0 then 0
    else
      var b0 := s[0];
      if b0 < 0x80 then 1
      else if 0xC2 <= b0 <= 0xDF then
        if |s| >= 2 && IsCont(s[1]) then 2 else 0
      else if 0xE0 <= b0 <= 0xEF then
        var lo := if b0 == 0xE0 then 0xA0 else 0x80;
        var hi := if b0 == 0xED then 0x9F else 0xBF;
        if |s| >= 3 && lo <= s[1] <= hi && IsCont(s[2]) then 3 else 0
      else if 0xF0 <= b0 <= 0xF4 then
        var lo := if b0 == 0xF0 then 0x90 else 0x80;
        var hi := if b0 == 0xF4 then 0x8F else 0xBF;
        if |s| >= 4 && lo <= s[1] <= hi && IsCont(s[2]) && IsCont(s[3]) then 4 else 0
      else 0
  }

  /** The scalar value of the well-formed sequence that starts `s`. */
  function FirstChar(s: seq<byte>): (c: char)
    requires FirstLength(s) > 0
    ensures c as int == 0 <==> s[0] == 0
  {
    var n := FirstLength(s);
    var b0: int := s[0];
    if n == 1 then b0 as char
    else
      var b1: int := s[1];
      if n == 2 then ((b0 - 0xC0) * 64 + (b1 - 0x80)) as char
      else
        var b2: int := s[2];
        if n == 3 then ((b0 - 0xE0) * 4096 + (b1 - 0x80) * 64 + (b2 - 0x80)) as char
        else
          var b3: int := s[3];
          ((b0 - 0xF0) * 262144 + (b1 - 0x80) * 4096 + (b2 - 0x80) * 64 + (b3 - 0x80)) as char
  }

  /** `String::from_utf8(bytes).ok()`: the decoded text, or `None` when the bytes are not UTF-8. */
  function Decode(s: seq<byte>): (r: Option<string>)
    ensures r.Some? ==> |r.value| <= |s|
    ensures r.Some? && (forall i :: 0 <= i < |s| ==> s[i] != 0) ==>
      forall i :: 0 <= i < |r.value| ==> r.value[i] as int != 0
    decreases |s|
  {
    if s == [] then Some([])
    else
      var n := FirstLength(s);
      if n == 0 then None
      else
        match Decode(s[n..])
        case None => None
        case Some(rest) => Some([FirstChar(s)] + rest)
  }

  /** The UTF-8 bytes of one character. */
  function EncodeChar(c: char): (r: seq<byte>)
    ensures 1 <= |r| <= 4
  {
    var n := c as int;
    if n < 0x80 then [n]
    else if n < 0x800 then [0xC0 + n / 64, 0x80 + n % 64]
    else if n < 0x10000 then [0xE0 + n / 4096, 0x80 + (n / 64) % 64, 0x80 + n % 64]
    else [0xF0 + n / 262144, 0x80 + (n / 4096) % 64, 0x80 + (n / 64) % 64, 0x80 + n % 64]
  }

  /** `s.as_bytes()`. */
  function Encode(s: string): seq<byte> {
    if s == [] then [] else EncodeChar(s[0]) + Encode(s[1..])
  }

  lemma {:induction false} EncodeAppend(a: string, b: string)
    ensures Encode(a + b) == Encode(a) + Encode(b)
  {
    if a == [] {
      assert a + b == b;
    } else {
      assert (a + b)[1..] == a[1..] + b;
      EncodeAppend(a[1..], b);
    }
  }

  /**
   * An ASCII byte occurs in the UTF-8 bytes of a text only as that
   * character: multi-byte sequences use bytes from 0x80 up.
   */
  lemma {:induction false} EncodeAvoids(s: string, b: byte)
    requires b < 0x80 && b as char !in s
    ensures b !in Encode(s)
    ensures s != [] ==> |Encode(s)| > 0 && Encode(s)[0] == EncodeChar(s[0])[0]
  {
    if s != [] {
      assert s[0] in s;
      assert forall c :: c in s[1..] ==> c in s;
      EncodeAvoids(s[1..], b);
      var e := EncodeChar(s[0]);
      assert forall i :: 0 <= i < |e| ==> e[i] != b;
    }
  }

  /** An ASCII character is its own single byte. */
  lemma EncodeAscii(s: string)
    requires forall i :: 0 <= i < |s| ==> s[i] as int < 0x80
    ensures |Encode(s)| == |s|
    ensures forall i :: 0 <= i < |s| ==> Encode(s)[i] == s[i] as int
  {
    if s != [] {
      EncodeAscii(s[1..]);
    }
  }

  /** The bytes of one character decode back to it, whatever follows them. */
  lemma EncodeCharRoundTrip(c: char, rest: seq<byte>)
    ensures FirstLength(EncodeChar(c) + rest) == |EncodeChar(c)|
    ensures FirstChar(EncodeChar(c) + rest) == c
  {
    var n := c as int;
    if n < 0x80 {
    } else if n < 0x800 {
      RoundTripTwo(c, rest);
    } else if n < 0x10000 {
      RoundTripThree(c, rest);
    } else {
      RoundTripFour(c, rest);
    }
  }

  lemma RoundTripTwo(c: char, rest: seq<byte>)
    requires 0x80 <= c as int < 0x800
    ensures FirstLength(EncodeChar(c) + rest) == 2
    ensures FirstChar(EncodeChar(c) + rest) == c
  {
    var n := c as int;
    var hi, lo := n / 64, n % 64;
    assert n == hi * 64 + lo;
    assert EncodeChar(c) == [0xC0 + hi, 0x80 + lo];
  }

  lemma RoundTripThree(c: char, rest: seq<byte>)
    requires 0x800 <= c as int < 0x10000
    ensures FirstLength(EncodeChar(c) + rest) == 3
    ensures FirstChar(EncodeChar(c) + rest) == c
  {
    var n := c as int;
    var top, mid, lo := n / 4096, (n / 64) % 64, n % 64;
    assert n / 64 == top * 64 + mid;
    assert n == top * 4096 + mid * 64 + lo;
    var s := EncodeChar(c) + rest;
    assert s[0] == 0xE0 + top && s[1] == 0x80 + mid && s[2] == 0x80 + lo;
  }

  lemma RoundTripFour(c: char, rest: seq<byte>)
    requires 0x10000 <= c as int
    ensures FirstLength(EncodeChar(c) + rest) == 4
    ensures FirstChar(EncodeChar(c) + rest) == c
  {
    var n := c as int;
    var top, upper, mid, lo := n / 262144, (n / 4096) % 64, (n / 64) % 64, n % 64;
    assert n / 4096 == top * 64 + upper;
    assert n / 64 == (n / 4096) * 64 + mid;
    assert n == top * 262144 + upper * 4096 + mid * 64 + lo;
    var s := EncodeChar(c) + rest;
    assert s[0] == 0xF0 + top && s[1] == 0x80 + upper && s[2] == 0x80 + mid && s[3] == 0x80 + lo;
  }

  /** Decoding what `as_bytes` produced gives back the text. */
  lemma {:induction false} DecodeEncode(s: string)
    ensures Decode(Encode(s)) == Some(s)
  {
    if s != [] {
      var e := EncodeChar(s[0]);
      var rest := Encode(s[1..]);
      assert Encode(s) == e + rest;
      EncodeCharRoundTrip(s[0], rest);
      assert (e + rest)[|e|..] == rest;
      DecodeEncode(s[1..]);
      assert [s[0]] + s[1..] == s;
    }
  }

  /** Bytes below 0x80 decode one to one into the characters with those codes. */
  lemma {:induction false} DecodeAscii(s: seq<byte>)
    requires forall i :: 0 <= i < |s| ==> s[i] < 0x80
    ensures Decode(s).Some? && |Decode(s).value| == |s|
    ensures forall i :: 0 <= i < |s| ==> Decode(s).value[i] as int == s[i]
  {
    if s != [] {
      DecodeAscii(s[1..]);
    }
  }
}
