/**
 * The integer pixel code of `src/converters/mod.rs`: the fixed-point
 * YUV to RGB pixel function `yuyv_to_rgb`, and the loop in
 * `nv12_420_to_rgb_yuv` that splits the interleaved UV plane of an NV12
 * frame into separate U and V planes. The `yuv` library conversions the
 * file calls afterwards are not part of this model.
 */
module Converters {
  import opened Wrappers
  import opened Bytes

  // ---------------------------------------------------------------------------
  // yuyv_to_rgb
  // ---------------------------------------------------------------------------

  predicate IsI32(x: int) {
    -0x8000_0000 <= x < 0x8000_0000
  }

  /** Two's-complement wrap-around of an `i32` operation (the release-build behaviour). */
  function Wrap(x: int): (r: int)
    ensures IsI32(r)
    ensures IsI32(x) ==> r == x
  {
    if IsI32(x) then x else (x + 0x8000_0000) % 0x1_0000_0000 - 0x8000_0000
  }

  /** `x.clamp(0, 255) as u8`. */
  function Clamp(x: int): byte {
    if x < 0 then 0 else if x > 255 then 255 else x
  }

  /** `x >> 9` on an `i32`: the arithmetic shift is floor division by 512. */
  function Shr9(x: int): int {
    x / 512
  }

  datatype Rgb = Rgb(red: byte, green: byte, blue: byte)

  /** `yuyv_to_rgb`: every `i32` operation wraps; the shifted sums are clamped into a byte. */
  function YuyvToRgb(y: int, u: int, v: int): Rgb
    requires IsI32(y) && IsI32(u) && IsI32(v)
  {
    var y1 := Wrap(y - 16);
    var u1 := Wrap(u - 128);
    var v1 := Wrap(v - 128);
    var luma := Wrap(y1 * 596);
    var red := Shr9(Wrap(luma + Wrap(817 * v1)));
    var green := Shr9(Wrap(Wrap(luma - Wrap(v1 * 416)) - Wrap(u1 * 200)));
    var blue := Shr9(Wrap(luma + Wrap(u1 * 1033)));
    Rgb(Clamp(red), Clamp(green), Clamp(blue))
  }

  /** One output channel of the BT.601 limited-range formula, on unbounded integers. */
  function Channel(sum: int): byte {
    Clamp(sum / 512)
  }

  /** The conversion formula written without wrap-around: the reference `yuyv_to_rgb` is checked against. */
  function ReferenceRgb(y: int, u: int, v: int): Rgb {
    Rgb(Channel(596 * (y - 16) + 817 * (v - 128)),
        Channel(596 * (y - 16) - 416 * (v - 128) - 200 * (u - 128)),
        Channel(596 * (y - 16) + 1033 * (u - 128)))
  }

  /** For byte-valued samples (the only ones a frame holds) no `i32` operation wraps. */
  lemma ExactForBytes(y: byte, u: byte, v: byte)
    ensures YuyvToRgb(y, u, v) == ReferenceRgb(y, u, v)
  {
    var y1, u1, v1 := y - 16, u - 128, v - 128;
    assert Wrap(y - 16) == y1 && Wrap(u - 128) == u1 && Wrap(v - 128) == v1;
    assert Wrap(y1 * 596) == 596 * y1;
    assert Wrap(817 * v1) == 817 * v1 && Wrap(v1 * 416) == 416 * v1;
    assert Wrap(u1 * 200) == 200 * u1 && Wrap(u1 * 1033) == 1033 * u1;
    assert Wrap(596 * y1 + 817 * v1) == 596 * y1 + 817 * v1;
    assert Wrap(596 * y1 - 416 * v1) == 596 * y1 - 416 * v1;
    assert Wrap(596 * y1 - 416 * v1 - 200 * u1) == 596 * y1 - 416 * v1 - 200 * u1;
    assert Wrap(596 * y1 + 1033 * u1) == 596 * y1 + 1033 * u1;
  }

  lemma ChannelMonotone(a: int, b: int)
    requires a <= b
    ensures Channel(a) <= Channel(b)
  {
    assert a / 512 <= b / 512 by {
      assert a == 512 * (a / 512) + a % 512;
      assert b == 512 * (b / 512) + b % 512;
    }
  }

  /** Zero chroma (u = v = 128) gives a grey: the three channels are equal. */
  lemma GrayIsNeutral(y: byte)
    ensures YuyvToRgb(y, 128, 128).red == YuyvToRgb(y, 128, 128).green == YuyvToRgb(y, 128, 128).blue
  {
    ExactForBytes(y, 128, 128);
  }

  /** Limited-range black (y = 16) maps to 0, and limited-range white (y = 235) to 254, not 255. */
  lemma BlackAndWhite()
    ensures YuyvToRgb(16, 128, 128) == Rgb(0, 0, 0)
    ensures YuyvToRgb(235, 128, 128) == Rgb(254, 254, 254)
  {
    ExactForBytes(16, 128, 128);
    ExactForBytes(235, 128, 128);
  }

  /** Below black the channels clip at 0; from y = 236 up a grey clips at 255. */
  lemma GreyClips(y: byte)
    ensures y <= 16 ==> YuyvToRgb(y, 128, 128) == Rgb(0, 0, 0)
    ensures y >= 236 ==> YuyvToRgb(y, 128, 128) == Rgb(255, 255, 255)
  {
    ExactForBytes(y, 128, 128);
  }

  /** The reference formula is monotone in luma in every channel. */
  lemma ReferenceLumaMonotone(y0: int, y1: int, u: int, v: int)
    requires y0 <= y1
    ensures ReferenceRgb(y0, u, v).red <= ReferenceRgb(y1, u, v).red
    ensures ReferenceRgb(y0, u, v).green <= ReferenceRgb(y1, u, v).green
    ensures ReferenceRgb(y0, u, v).blue <= ReferenceRgb(y1, u, v).blue
  {
    ChannelMonotone(596 * (y0 - 16) + 817 * (v - 128), 596 * (y1 - 16) + 817 * (v - 128));
    ChannelMonotone(596 * (y0 - 16) - 416 * (v - 128) - 200 * (u - 128), 596 * (y1 - 16) - 416 * (v - 128) - 200 * (u - 128));
    ChannelMonotone(596 * (y0 - 16) + 1033 * (u - 128), 596 * (y1 - 16) + 1033 * (u - 128));
  }

  /** A brighter luma never darkens any channel, whatever the chroma. */
  lemma LumaMonotone(y0: byte, y1: byte, u: byte, v: byte)
    requires y0 <= y1
    ensures YuyvToRgb(y0, u, v).red <= YuyvToRgb(y1, u, v).red
    ensures YuyvToRgb(y0, u, v).green <= YuyvToRgb(y1, u, v).green
    ensures YuyvToRgb(y0, u, v).blue <= YuyvToRgb(y1, u, v).blue
  {
    ExactForBytes(y0, u, v);
    ExactForBytes(y1, u, v);
    ReferenceLumaMonotone(y0, y1, u, v);
  }

  /** In the reference formula red grows with v, blue with u, and green falls with both. */
  lemma ReferenceChromaDirections(y: int, u0: int, u1: int, v0: int, v1: int)
    requires u0 <= u1 && v0 <= v1
    ensures ReferenceRgb(y, u0, v0).red <= ReferenceRgb(y, u1, v1).red
    ensures ReferenceRgb(y, u0, v0).blue <= ReferenceRgb(y, u1, v1).blue
    ensures ReferenceRgb(y, u0, v0).green >= ReferenceRgb(y, u1, v1).green
  {
    ChannelMonotone(596 * (y - 16) + 817 * (v0 - 128), 596 * (y - 16) + 817 * (v1 - 128));
    ChannelMonotone(596 * (y - 16) + 1033 * (u0 - 128), 596 * (y - 16) + 1033 * (u1 - 128));
    ChannelMonotone(596 * (y - 16) - 416 * (v1 - 128) - 200 * (u1 - 128), 596 * (y - 16) - 416 * (v0 - 128) - 200 * (u0 - 128));
  }

  /** Chroma steers the hue: red grows with v and blue with u, while green falls with both. */
  lemma ChromaDirections(y: byte, u0: byte, u1: byte, v0: byte, v1: byte)
    requires u0 <= u1 && v0 <= v1
    ensures YuyvToRgb(y, u0, v0).red <= YuyvToRgb(y, u1, v1).red
    ensures YuyvToRgb(y, u0, v0).blue <= YuyvToRgb(y, u1, v1).blue
    ensures YuyvToRgb(y, u0, v0).green >= YuyvToRgb(y, u1, v1).green
  {
    ExactForBytes(y, u0, v0);
    ExactForBytes(y, u1, v1);
    ReferenceChromaDirections(y, u0, u1, v0, v1);
  }

  /** Red does not depend on u, and blue does not depend on v. */
  lemma ChromaSeparation(y: byte, u0: byte, u1: byte, v0: byte, v1: byte)
    ensures YuyvToRgb(y, u0, v0).red == YuyvToRgb(y, u1, v0).red
    ensures YuyvToRgb(y, u0, v0).blue == YuyvToRgb(y, u0, v1).blue
  {
    ExactForBytes(y, u0, v0);
    ExactForBytes(y, u1, v0);
    ExactForBytes(y, u0, v1);
  }

  // ---------------------------------------------------------------------------
  // The U/V de-interleave loop of nv12_420_to_rgb_yuv
  // ---------------------------------------------------------------------------

  /** The interleaved layout the loop undoes: u0 v0 u1 v1 ... */
  function Interleave(u: seq<byte>, v: seq<byte>): (r: seq<byte>)
    requires |u| == |v|
    ensures |r| == 2 * |u|
  {
    seq(2 * |u|, j requires 0 <= j < 2 * |u| => if j % 2 == 0 then u[j / 2] else v[j / 2])
  }

  /**
   * The `for i in 0..n` loop: `u_plane[i] = buf[area + 2i]` and
   * `v_plane[i] = buf[area + 2i + 1]`, into two zeroed buffers of `n` bytes.
   * The source indexes `buf` unchecked, so the bytes it reads must exist.
   */
  method SplitUv(buf: seq<byte>, area: nat, n: nat) returns (u: seq<byte>, v: seq<byte>)
    requires area + 2 * n <= |buf|
    ensures |u| == n && |v| == n
    ensures forall i :: 0 <= i < n ==> u[i] == buf[area + 2 * i] && v[i] == buf[area + 2 * i + 1]
    ensures Interleave(u, v) == buf[area..area + 2 * n]
  {
    var uPlane := new byte[n](_ => 0);
    var vPlane := new byte[n](_ => 0);
    for i := 0 to n
      invariant forall k :: 0 <= k < i ==> uPlane[k] == buf[area + 2 * k] && vPlane[k] == buf[area + 2 * k + 1]
    {
      uPlane[i] := buf[area + 2 * i];
      vPlane[i] := buf[area + 2 * i + 1];
    }
    u, v := uPlane[..], vPlane[..];
    InterleaveRestores(buf, area, u, v);
  }

  /** Two planes read off alternate bytes interleave back into the bytes they were read from. */
  lemma InterleaveRestores(buf: seq<byte>, area: nat, u: seq<byte>, v: seq<byte>)
    requires |u| == |v| && area + 2 * |u| <= |buf|
    requires forall i :: 0 <= i < |u| ==> u[i] == buf[area + 2 * i] && v[i] == buf[area + 2 * i + 1]
    ensures Interleave(u, v) == buf[area..area + 2 * |u|]
  {
    var w := Interleave(u, v);
    var src := buf[area..area + 2 * |u|];
    forall j | 0 <= j < 2 * |u|
      ensures w[j] == src[j]
    {
      var i := j / 2;
      assert src[j] == buf[area + j];
      if j % 2 == 0 {
        assert j == 2 * i && w[j] == u[i];
      } else {
        assert j == 2 * i + 1 && w[j] == v[i];
      }
    }
  }

  /** The planes `nv12_420_to_rgb_yuv` hands the library, and the size of the RGB buffer it fills. */
  datatype Planar = Planar(yPlane: seq<byte>, uPlane: seq<byte>, vPlane: seq<byte>, rgbLen: nat)

  /** `width * height` on `u32`, wrapping. */
  function Area(width: nat, height: nat): nat {
    (width * height) % U32_BOUND
  }

  /** `(width * height) * 15 / 10` on `u32`: the length the `assert_eq!` demands. */
  function NominalLength(area: nat): nat {
    (area * 15) % U32_BOUND / 10
  }

  /**
   * `width as usize * height as usize * 3`: three bytes a pixel. Both factors
   * are `u32`, so only the final `* 3` can leave `usize`; release builds wrap.
   */
  function RgbLength(width: nat, height: nat): nat {
    (width * height * 3) % USIZE_BOUND
  }

  /**
   * How `nv12_420_to_rgb_yuv` ends before the library call: the planes and
   * the RGB buffer's size, or one of its three panics.
   */
  datatype PlanarResult =
    | Planes(planes: Planar)
    | CapacityOverflow   // `vec![0u8; ...]` asked for more than `isize::MAX` bytes
    | IndexOutOfBounds   // the Y slice or the UV loop reached past the frame
    | LengthMismatch     // the `assert_eq!` on the frame length failed

  /**
   * `nv12_420_to_rgb_yuv` up to the library call. The RGB buffer is
   * allocated first, then the Y plane is sliced and the UV plane split, and
   * only then is the frame length checked.
   */
  method Nv12ToPlanar(buf: seq<byte>, width: nat, height: nat) returns (r: PlanarResult)
    requires width < U32_BOUND && height < U32_BOUND
    ensures r.CapacityOverflow? <==> RgbLength(width, height) > ISIZE_MAX
    ensures r.IndexOutOfBounds? <==>
      RgbLength(width, height) <= ISIZE_MAX && Area(width, height) + 2 * (Area(width, height) / 4) > |buf|
    ensures r.LengthMismatch? <==>
      RgbLength(width, height) <= ISIZE_MAX && Area(width, height) + 2 * (Area(width, height) / 4) <= |buf|
      && |buf| != NominalLength(Area(width, height))
    ensures r.Planes? ==> r.planes.yPlane == buf[..Area(width, height)]
    ensures r.Planes? ==> |r.planes.uPlane| == |r.planes.vPlane| == Area(width, height) / 4
    ensures r.Planes? ==> forall i :: 0 <= i < Area(width, height) / 4 ==>
      r.planes.uPlane[i] == buf[Area(width, height) + 2 * i] && r.planes.vPlane[i] == buf[Area(width, height) + 2 * i + 1]
    ensures r.Planes? ==> r.planes.rgbLen == RgbLength(width, height) <= ISIZE_MAX
  {
    var rgbLen := RgbLength(width, height);
    if rgbLen > ISIZE_MAX {
      return CapacityOverflow;
    }
    var area := Area(width, height);
    if area + 2 * (area / 4) > |buf| {
      return IndexOutOfBounds;
    }
    var yPlane := buf[..area];
    var u, v := SplitUv(buf, area, area / 4);
    if |buf| != NominalLength(area) {
      return LengthMismatch;
    }
    r := Planes(Planar(yPlane, u, v, rgbLen));
  }

  /**
   * The two ways the sizes part company: a 2^31 by 2^31 frame has a `u32`
   * area of 0, yet its RGB buffer is too large to allocate; and a frame of
   * 0xAAAA_AAAB by 2^31 pixels wraps the `usize` RGB length down to 2^31.
   */
  lemma SizesDisagree()
    ensures Area(0x8000_0000, 0x8000_0000) == 0 && RgbLength(0x8000_0000, 0x8000_0000) > ISIZE_MAX
    ensures RgbLength(0xAAAA_AAAB, 0x8000_0000) == 0x8000_0000
  {
  }

  /**
   * When nothing wraps, a frame of the length the assertion demands (one and
   * a half bytes a pixel) always holds the bytes the loop reads, and the RGB
   * buffer is allocated without overflow.
   */
  lemma NominalLengthFits(width: nat, height: nat)
    requires width * height * 15 < U32_BOUND
    ensures Area(width, height) == width * height
    ensures NominalLength(width * height) == width * height * 15 / 10
    ensures width * height + 2 * (width * height / 4) <= NominalLength(width * height)
    ensures RgbLength(width, height) == width * height * 3 <= ISIZE_MAX
  {
  }
}
