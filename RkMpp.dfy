/**
 * `convert_to_nv12` of `src/rk_mpp/mod.rs`, in both of its build variants:
 * the frame is brought to NV12 and the MPP input buffer size is computed
 * from a height rounded up to a multiple of 16. The pixel conversions it
 * calls (`converters::nv24_444_to_nv12`, `converters::bgr3_888_to_nv12`,
 * `rk_rga::bgr_to_nv12`) are not part of this model: their results are
 * inputs. All size arithmetic is on `u32`, so every operation wraps.
 */
module RkMpp {
  import opened Bytes

  /** The capture formats the encoder accepts. */
  datatype StreamPixelFormat = NV24 | BGR3 | NV12

  /** The frame handed on to the encoder, and the size of the MPP buffer it is copied into. */
  datatype Converted = Converted(buf: seq<byte>, frameSize: nat)

  /**
   * `(height + 15) & !15` on `u32`: the sum wraps, and masking with `!15`
   * clears its low four bits, which is rounding it down to a multiple of 16.
   */
  function AlignedHeight(height: nat): nat
    requires height < U32_BOUND
  {
    ((height + 15) % U32_BOUND) / 16 * 16
  }

  /** `width * aligned * 3 / 2` on `u32`: the product wraps at each step before the halving. */
  function FrameSize(width: nat, height: nat): nat
    requires width < U32_BOUND && height < U32_BOUND
  {
    (width * AlignedHeight(height) % U32_BOUND * 3 % U32_BOUND) / 2
  }

  /** `convert_to_nv12` when built with `rga_converter`: BGR3 goes through the RGA. */
  function ConvertWithRga(raw: seq<byte>, width: nat, height: nat, format: StreamPixelFormat,
                          nv24Converted: seq<byte>, rgaConverted: seq<byte>): (r: Converted)
    requires width < U32_BOUND && height < U32_BOUND
    ensures r.frameSize == FrameSize(width, height)
    ensures format == NV12 ==> r.buf == raw
  {
    match format
    case NV24 => Converted(nv24Converted, FrameSize(width, height))
    case BGR3 => Converted(rgaConverted, FrameSize(width, height))
    case NV12 => Converted(raw, FrameSize(width, height))
  }

  /** `convert_to_nv12` without `rga_converter`: BGR3 goes through the CPU converter. */
  function ConvertWithoutRga(raw: seq<byte>, width: nat, height: nat, format: StreamPixelFormat,
                             nv24Converted: seq<byte>, cpuConverted: seq<byte>): (r: Converted)
    requires width < U32_BOUND && height < U32_BOUND
    ensures r.frameSize == FrameSize(width, height)
    ensures format == NV12 ==> r.buf == raw
  {
    match format
    case NV24 => Converted(nv24Converted, FrameSize(width, height))
    case BGR3 => Converted(cpuConverted, FrameSize(width, height))
    case NV12 => Converted(raw, FrameSize(width, height))
  }

  predicate MultipleOf16(m: int) {
    m % 16 == 0
  }

  // ---------------------------------------------------------------------------
  // Properties
  // ---------------------------------------------------------------------------

  /** Without wrap-around the aligned height is the least multiple of 16 not below `height`. */
  lemma AlignedHeightRoundsUp(height: nat)
    requires height + 15 < U32_BOUND
    ensures MultipleOf16(AlignedHeight(height))
    ensures height <= AlignedHeight(height) < height + 16
    ensures forall m :: MultipleOf16(m) && height <= m ==> AlignedHeight(height) <= m
  {
    var a := AlignedHeight(height);
    var q := (height + 15) / 16;
    assert a == q * 16;
    assert height + 15 == 16 * q + (height + 15) % 16;
    forall m | MultipleOf16(m) && height <= m
      ensures a <= m
    {
      var k := m / 16;
      assert m == 16 * k;
      assert 16 * k > 16 * q - 16;
    }
  }

  /** A height that is already a multiple of 16 is kept. */
  lemma AlignedHeightKeepsMultiples(height: nat)
    requires height + 15 < U32_BOUND && MultipleOf16(height)
    ensures AlignedHeight(height) == height
  {
    AlignedHeightRoundsUp(height);
  }

  /** In the last 15 values of `u32` the sum wraps and the aligned height collapses to 0. */
  lemma AlignedHeightWraps(height: nat)
    requires U32_BOUND - 15 <= height < U32_BOUND
    ensures AlignedHeight(height) == 0 && FrameSize(0x1_0000, height) == 0
  {
    assert (height + 15) % U32_BOUND == height + 15 - U32_BOUND;
  }

  /** Without wrap-around the frame size is one and a half bytes per pixel of the aligned frame. */
  lemma FrameSizeExact(width: nat, height: nat)
    requires width < U32_BOUND && height + 15 < U32_BOUND
    requires width * AlignedHeight(height) * 3 < U32_BOUND
    ensures FrameSize(width, height) == width * AlignedHeight(height) * 3 / 2
  {
    var p := width * AlignedHeight(height);
    assert p * 3 < U32_BOUND;
    assert p % U32_BOUND == p;
    assert p * 3 % U32_BOUND == p * 3;
  }

  /**
   * The buffer size covers the frame, and exceeds the `width * height * 3 / 2`
   * bytes of an NV12 frame exactly when the height is not a multiple of 16
   * (and the width is not zero).
   */
  lemma FrameSizeCoversFrame(width: nat, height: nat)
    requires width < U32_BOUND && height + 15 < U32_BOUND
    requires width * AlignedHeight(height) * 3 < U32_BOUND
    ensures FrameSize(width, height) >= width * height * 3 / 2
    ensures FrameSize(width, height) > width * height * 3 / 2 <==> width > 0 && !MultipleOf16(height)
  {
    FrameSizeExact(width, height);
    AlignedHeightRoundsUp(height);
    var a := AlignedHeight(height);
    ScaledHalfMonotone(width, height, a);
    if width > 0 && !MultipleOf16(height) {
      assert height < a;
      ScaledHalfStrict(width, height, a);
    } else if width == 0 {
      assert width * a == 0 && width * height == 0;
    } else {
      AlignedHeightKeepsMultiples(height);
    }
  }

  lemma ScaledHalfMonotone(width: nat, h: nat, a: nat)
    requires h <= a
    ensures width * h * 3 / 2 <= width * a * 3 / 2
  {
    assert width * h <= width * a by {
      MulMonotone(width, h, a);
    }
  }

  lemma ScaledHalfStrict(width: nat, h: nat, a: nat)
    requires width > 0 && h < a
    ensures width * h * 3 / 2 < width * a * 3 / 2
  {
    MulMonotone(width, h + 1, a);
    assert width * (h + 1) == width * h + width;
    var p, q := width * h, width * a;
    assert p + 1 <= q;
    assert p * 3 + 3 <= q * 3;
  }

  lemma MulMonotone(width: nat, h: nat, a: nat)
    requires h <= a
    ensures width * h <= width * a
  {
    assert width * a == width * h + width * (a - h);
  }

  /** The size does not depend on the pixel format: NV24, BGR3 and NV12 frames get the same buffer. */
  lemma SameSizeEveryFormat(raw: seq<byte>, width: nat, height: nat, f: StreamPixelFormat, g: StreamPixelFormat,
                            nv24Converted: seq<byte>, bgrConverted: seq<byte>)
    requires width < U32_BOUND && height < U32_BOUND
    ensures ConvertWithRga(raw, width, height, f, nv24Converted, bgrConverted).frameSize
         == ConvertWithRga(raw, width, height, g, nv24Converted, bgrConverted).frameSize
    ensures ConvertWithoutRga(raw, width, height, f, nv24Converted, bgrConverted).frameSize
         == ConvertWithoutRga(raw, width, height, g, nv24Converted, bgrConverted).frameSize
  {
  }

  /**
   * The two build variants agree: always on the size, and on the frame
   * whenever the RGA and the CPU converter produce the same bytes.
   */
  lemma VariantsAgree(raw: seq<byte>, width: nat, height: nat, format: StreamPixelFormat,
                      nv24Converted: seq<byte>, rgaConverted: seq<byte>, cpuConverted: seq<byte>)
    requires width < U32_BOUND && height < U32_BOUND
    ensures ConvertWithRga(raw, width, height, format, nv24Converted, rgaConverted).frameSize
         == ConvertWithoutRga(raw, width, height, format, nv24Converted, cpuConverted).frameSize
    ensures format != BGR3 || rgaConverted == cpuConverted ==>
      ConvertWithRga(raw, width, height, format, nv24Converted, rgaConverted)
      == ConvertWithoutRga(raw, width, height, format, nv24Converted, cpuConverted)
  {
  }
}
