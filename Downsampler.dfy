/**
 * The NV24 to NV12 chroma downsampler (`src/converters/downsampler/mod.rs`).
 * An NV24 frame is a `width x height` Y plane followed by a full-resolution
 * interleaved UV plane of `2 * width` bytes per row. NV12 keeps the Y plane
 * and halves the chroma both ways: each pair of UV rows becomes one output
 * row of `width` bytes, alternating U and V, either averaged over a 2x2 block
 * (`Quality`) or picked from it (`Fast`).
 */
module Downsampler {
  import opened Bytes

  datatype Mode = Fast | Quality

  /** The mean of four bytes, rounded down: it lies between the smallest and the largest of them. */
  function Mean4(a: byte, b: byte, c: byte, d: byte): byte {
    ((a as int + b as int + c as int + d as int) / 4) as byte
  }

  /** The mean of four bytes, rounded down, lies between the smallest and the largest of them. */
  lemma Mean4Between(a: byte, b: byte, c: byte, d: byte)
    ensures 4 * Mean4(a, b, c, d) as int <= a as int + b as int + c as int + d as int < 4 * Mean4(a, b, c, d) as int + 4
    ensures Mean4(a, b, c, d) <= a || Mean4(a, b, c, d) <= b || Mean4(a, b, c, d) <= c || Mean4(a, b, c, d) <= d
    ensures Mean4(a, b, c, d) >= a || Mean4(a, b, c, d) >= b || Mean4(a, b, c, d) >= c || Mean4(a, b, c, d) >= d
  {
  }

  /**
   * Byte `j` of the output row made from UV rows `row0` and `row1`: for the
   * pixel pair at `px` (even), `j == px` is U and `j == px + 1` is V. With
   * `Quality` it is the mean of that component over the two pixels of both
   * rows; with `Fast` it is the U of the first pixel of `row0`, or the V of
   * the second pixel of `row1`.
   */
  function RowByte(mode: Mode, row0: seq<byte>, row1: seq<byte>, width: nat, j: nat): byte
    requires width % 2 == 0 && j < width && RowsFit(row0, row1, width)
  {
    match mode
    case Quality =>
      if j % 2 == 0 then Mean4(row0[2 * j], row0[2 * j + 2], row1[2 * j], row1[2 * j + 2])
      else Mean4(row0[2 * j - 1], row0[2 * j + 1], row1[2 * j - 1], row1[2 * j + 1])
    case Fast =>
      if j % 2 == 0 then row0[2 * j] else row1[2 * j + 1]
  }

  /** Both UV rows hold a full stride of `2 * width` bytes, which is what the frame loop hands over. */
  predicate RowsFit(row0: seq<byte>, row1: seq<byte>, width: nat) {
    |row0| >= 2 * width && |row1| >= 2 * width
  }

  /** The whole output row. */
  function Row(mode: Mode, row0: seq<byte>, row1: seq<byte>, width: nat): (r: seq<byte>)
    requires width % 2 == 0 && RowsFit(row0, row1, width)
    ensures |r| == width
  {
    seq(width, j requires 0 <= j < width => RowByte(mode, row0, row1, width, j))
  }

  /** `downsample_row`: write the averaged row into `dst[base..base + width]`. */
  method DownsampleRow(row0: seq<byte>, row1: seq<byte>, dst: array<byte>, base: nat, width: nat)
    requires width % 2 == 0
    requires |row0| >= 2 * width && |row1| >= 2 * width
    requires base + width <= dst.Length
    modifies dst
    ensures dst[base..base + width] == Row(Quality, row0, row1, width)
    ensures dst[..base] == old(dst[..base]) && dst[base + width..] == old(dst[base + width..])
  {
    var px := 0;
    while px < width
      invariant px <= width && px % 2 == 0
      invariant forall j :: 0 <= j < px ==> dst[base + j] == RowByte(Quality, row0, row1, width, j)
      invariant forall i :: 0 <= i < dst.Length && !(base <= i < base + px) ==> dst[i] == old(dst[i])
      decreases width - px
    {
      var index := px * 2;
      var u := Mean4(row0[index], row0[index + 2], row1[index], row1[index + 2]);
      var v := Mean4(row0[index + 1], row0[index + 3], row1[index + 1], row1[index + 3]);
      dst[base + px] := u;
      dst[base + px + 1] := v;
      px := px + 2;
    }
    RowWritten(Quality, row0, row1, dst, base, width);
  }

  /** `fastest_downsample_row`: write the picked row into `dst[base..base + width]`. */
  method FastestDownsampleRow(row0: seq<byte>, row1: seq<byte>, dst: array<byte>, base: nat, width: nat)
    requires width % 2 == 0
    requires |row0| >= 2 * width && |row1| >= 2 * width
    requires base + width <= dst.Length
    modifies dst
    ensures dst[base..base + width] == Row(Fast, row0, row1, width)
    ensures dst[..base] == old(dst[..base]) && dst[base + width..] == old(dst[base + width..])
  {
    var px := 0;
    while px < width
      invariant px <= width && px % 2 == 0
      invariant forall j :: 0 <= j < px ==> dst[base + j] == RowByte(Fast, row0, row1, width, j)
      invariant forall i :: 0 <= i < dst.Length && !(base <= i < base + px) ==> dst[i] == old(dst[i])
      decreases width - px
    {
      var index := px * 2;
      dst[base + px] := row0[index];
      dst[base + px + 1] := row1[index + 3];
      px := px + 2;
    }
    RowWritten(Fast, row0, row1, dst, base, width);
  }

  /** The row function the mode selects. */
  method RowInto(mode: Mode, row0: seq<byte>, row1: seq<byte>, dst: array<byte>, base: nat, width: nat)
    requires width % 2 == 0 && |row0| >= 2 * width && |row1| >= 2 * width
    requires base + width <= dst.Length
    modifies dst
    ensures dst[base..base + width] == Row(mode, row0, row1, width)
    ensures dst[..base] == old(dst[..base]) && dst[base + width..] == old(dst[base + width..])
  {
    if mode == Fast {
      FastestDownsampleRow(row0, row1, dst, base, width);
    } else {
      DownsampleRow(row0, row1, dst, base, width);
    }
  }

  /** The element-wise facts a row loop ends with, as slices. */
  lemma RowWritten(mode: Mode, row0: seq<byte>, row1: seq<byte>, dst: array<byte>, base: nat, width: nat)
    requires width % 2 == 0 && RowsFit(row0, row1, width) && base + width <= dst.Length
    requires forall j :: 0 <= j < width ==> dst[base + j] == RowByte(mode, row0, row1, width, j)
    ensures dst[base..base + width] == Row(mode, row0, row1, width)
  {
    var r := Row(mode, row0, row1, width);
    forall j | 0 <= j < width ensures dst[base..base + width][j] == r[j] {
      assert dst[base..base + width][j] == dst[base + j];
    }
  }

  /** A flat patch stays flat: rows of one chroma value downsample to that value, in either mode. */
  lemma UniformRow(mode: Mode, row0: seq<byte>, row1: seq<byte>, width: nat, c: byte)
    requires width % 2 == 0 && RowsFit(row0, row1, width)
    requires forall i :: 0 <= i < 2 * width ==> row0[i] == c && row1[i] == c
    ensures forall j :: 0 <= j < width ==> Row(mode, row0, row1, width)[j] == c
  {
    forall j | 0 <= j < width ensures Row(mode, row0, row1, width)[j] == c {
      if j % 2 == 0 {
        assert row0[2 * j] == c && row1[2 * j + 1] == c;
      } else {
        assert row0[2 * j - 1] == c && row1[2 * j + 1] == c;
      }
    }
  }

  // ---------------------------------------------------------------------------
  // The frame
  // ---------------------------------------------------------------------------

  /**
   * What the entry asserts of its input: even sizes, and a length that is a
   * whole number of rows of which `2 * width` are left once the Y plane's
   * `width` is taken (the division by `height` panics when it is zero).
   * Sizes are counted in strides; `Nv24FrameIs` gives them as products.
   */
  predicate Nv24Frame(raw: seq<byte>, width: nat, height: nat) {
    width % 2 == 0 && height % 2 == 0 && height > 0 && |raw| == 3 * Strides(width, height)
  }

  /** `k` strides of `n` bytes, counted one stride at a time as the loop does. */
  function Strides(n: nat, k: nat): nat {
    if k == 0 then 0 else Strides(n, k - 1) + n
  }

  lemma {:induction false} StridesAre(n: nat, k: nat)
    ensures Strides(n, k) == k * n
  {
    if k > 0 {
      StridesAre(n, k - 1);
    }
  }

  lemma StridesNext(n: nat, k: nat)
    ensures Strides(n, k + 1) == Strides(n, k) + n
  {
  }

  lemma {:induction false} StridesGrow(n: nat, i: nat, j: nat)
    requires i <= j
    ensures Strides(n, i) <= Strides(n, j)
    decreases j
  {
    if i < j {
      StridesGrow(n, i, j - 1);
    }
  }

  /** Strides twice as wide are twice as long. */
  lemma {:induction false} StridesWide(n: nat, k: nat)
    ensures Strides(2 * n, k) == 2 * Strides(n, k)
  {
    if k > 0 {
      StridesWide(n, k - 1);
    }
  }

  /** Twice as many strides are twice as long. */
  lemma {:induction false} StridesTwice(n: nat, k: nat)
    ensures Strides(n, 2 * k) == 2 * Strides(n, k)
  {
    if k > 0 {
      StridesTwice(n, k - 1);
      assert Strides(n, 2 * k) == Strides(n, 2 * (k - 1)) + n + n;
    }
  }

  /** The frame condition in the source's own terms. */
  lemma Nv24FrameIs(raw: seq<byte>, width: nat, height: nat)
    ensures Nv24Frame(raw, width, height) <==>
      width % 2 == 0 && height % 2 == 0 && height > 0 && |raw| == width * height * 3
  {
    StridesAre(width, height);
  }

  /** `width * height`, the size of the Y plane. */
  method PlaneArea(width: nat, height: nat) returns (area: nat)
    ensures area == Strides(width, height)
  {
    area := width * height;
    StridesAre(width, height);
  }

  /** The plane sizes of an NV24 frame: a UV plane of `2 * width` bytes a row, and half a Y plane of chroma out. */
  lemma PlaneSizes(raw: seq<byte>, width: nat, height: nat)
    requires Nv24Frame(raw, width, height)
    ensures |raw| - Strides(width, height) == Strides(2 * width, height)
    ensures Strides(width, height) / 2 == Strides(width, height / 2)
  {
    StridesWide(width, height);
    var h2 := height / 2;
    assert height == 2 * h2;
    StridesTwice(width, h2);
  }

  /** The UV plane: everything after the Y plane, `height` rows of `2 * width` bytes. */
  function UvPlane(raw: seq<byte>, width: nat, height: nat): (uv: seq<byte>)
    requires Nv24Frame(raw, width, height)
    ensures |uv| == Strides(2 * width, height)
  {
    PlaneSizes(raw, width, height);
    raw[Strides(width, height)..]
  }

  /** Row `i` of a UV plane. */
  function UvRow(uv: seq<byte>, width: nat, i: nat): (row: seq<byte>)
    requires Strides(2 * width, i + 1) <= |uv|
    ensures |row| == 2 * width
  {
    uv[Strides(2 * width, i)..Strides(2 * width, i) + 2 * width]
  }

  /** Output row `r`: made from UV rows `2r` and `2r + 1`. */
  function ChromaRow(mode: Mode, uv: seq<byte>, width: nat, r: nat): (row: seq<byte>)
    requires width % 2 == 0 && Strides(2 * width, 2 * r + 2) <= |uv|
    ensures |row| == width
  {
    Row(mode, UvRow(uv, width, 2 * r), UvRow(uv, width, 2 * r + 1), width)
  }

  /** The chroma of the first `rows` output rows. */
  function Chroma(mode: Mode, uv: seq<byte>, width: nat, rows: nat): (c: seq<byte>)
    requires width % 2 == 0 && Strides(2 * width, 2 * rows) <= |uv|
    ensures |c| == Strides(width, rows)
  {
    if rows == 0 then []
    else
      StridesGrow(2 * width, 2 * rows - 2, 2 * rows);
      Chroma(mode, uv, width, rows - 1) + ChromaRow(mode, uv, width, rows - 1)
  }

  /** Output row `r` read straight from the UV plane, whose row `2r` starts at `off`. */
  lemma ChromaRowIs(mode: Mode, uv: seq<byte>, width: nat, r: nat, off: nat, stride: nat)
    requires width % 2 == 0 && Strides(2 * width, 2 * r + 2) <= |uv|
    requires stride == 2 * width && off == Strides(2 * width, 2 * r)
    ensures off + 2 * stride <= |uv|
    ensures ChromaRow(mode, uv, width, r) == Row(mode, uv[off..off + stride], uv[off + stride..off + 2 * stride], width)
  {
    assert Strides(2 * width, 2 * r + 1) == off + stride;
  }

  lemma ChromaStep(mode: Mode, uv: seq<byte>, width: nat, rows: nat)
    requires width % 2 == 0 && Strides(2 * width, 2 * rows + 2) <= |uv|
    ensures Strides(2 * width, 2 * rows) <= |uv|
    ensures Chroma(mode, uv, width, rows + 1) == Chroma(mode, uv, width, rows) + ChromaRow(mode, uv, width, rows)
  {
    StridesGrow(2 * width, 2 * rows, 2 * rows + 2);
  }

  /** The NV12 frame: the Y plane as it was, then the downsampled chroma. */
  function Downsampled(mode: Mode, raw: seq<byte>, width: nat, height: nat): seq<byte>
    requires Nv24Frame(raw, width, height)
  {
    raw[..Strides(width, height)] + Chroma(mode, UvPlane(raw, width, height), width, height / 2)
  }

  /**
   * One pass of the frame loop: take UV rows `2 * rows` and `2 * rows + 1`
   * (starting at `off`) and write their downsampled row at `base`, after the
   * rows already written.
   */
  method ChromaRowInto(mode: Mode, uv: seq<byte>, width: nat, rows: nat, off: nat, stride: nat, out: array<byte>, base: nat)
    requires width % 2 == 0 && Strides(2 * width, 2 * rows + 2) <= |uv|
    requires Strides(2 * width, 2 * rows) <= |uv|
    requires stride == 2 * width && off == Strides(2 * width, 2 * rows)
    requires base == Strides(width, rows) && base + width <= out.Length
    requires out[..base] == Chroma(mode, uv, width, rows)
    modifies out
    ensures out[..base + width] == Chroma(mode, uv, width, rows + 1)
    ensures out[base + width..] == old(out[base + width..])
  {
    ChromaStep(mode, uv, width, rows);
    ChromaRowIs(mode, uv, width, rows, off, stride);
    var row0 := uv[off..off + stride];
    var row1 := uv[off + stride..off + 2 * stride];
    ghost var done := out[..base];
    RowInto(mode, row0, row1, out, base, width);
    assert out[..base] == done;
    assert out[..base + width] == done + out[base..base + width];
  }

  /**
   * `nv24_444_to_nv12_downsampler`. The loop walks the UV plane two rows at
   * a time: `off` is where UV row `y` starts (`y * stride`) and `base` where
   * output row `y / 2` starts (`(y / 2) * width`).
   */
  method Nv24ToNv12(raw: seq<byte>, width: nat, height: nat, mode: Mode) returns (outBuf: seq<byte>)
    requires Nv24Frame(raw, width, height)
    ensures outBuf == Downsampled(mode, raw, width, height)
  {
    PlaneSizes(raw, width, height);
    var ySize := PlaneArea(width, height);
    var uv := raw[ySize..];
    assert uv == UvPlane(raw, width, height);
    var chroma := DownsamplePlane(mode, uv, width, height, ySize / 2);
    outBuf := raw[..ySize] + chroma;
  }

  /** The frame loop: every pair of UV rows, downsampled into a buffer of `size` bytes. */
  method DownsamplePlane(mode: Mode, uv: seq<byte>, width: nat, height: nat, size: nat) returns (chroma: seq<byte>)
    requires width % 2 == 0 && height % 2 == 0
    requires |uv| == Strides(2 * width, height) && size == Strides(width, height / 2)
    ensures chroma == Chroma(mode, uv, width, height / 2)
  {
    var stride := 2 * width;
    var out := new byte[size];
    var y := 0;
    var rows := 0;
    var base := 0;
    var off := 0;
    while y < height
      invariant y == 2 * rows && y <= height
      invariant base == Strides(width, rows) && base <= out.Length
      invariant off == Strides(2 * width, y) && off <= |uv|
      invariant out[..base] == Chroma(mode, uv, width, rows)
      decreases height - y
    {
      StridesGrow(2 * width, y + 2, height);
      StridesGrow(width, rows + 1, height / 2);
      ChromaRowInto(mode, uv, width, rows, off, stride, out, base);
      StridesNext(width, rows);
      StridesNext(2 * width, y);
      StridesNext(2 * width, y + 1);
      y := y + 2;
      rows := rows + 1;
      base := base + width;
      off := off + 2 * stride;
    }
    assert rows == height / 2;
    assert out[..] == out[..base];
    chroma := out[..];
  }

  // ---------------------------------------------------------------------------
  // Properties of the frame
  // ---------------------------------------------------------------------------

  /** The output is `width * height * 3 / 2` bytes and starts with the input's Y plane. */
  lemma OutputShape(mode: Mode, raw: seq<byte>, width: nat, height: nat)
    requires Nv24Frame(raw, width, height)
    ensures |Downsampled(mode, raw, width, height)| == width * height * 3 / 2
    ensures width * height <= |raw| && width * height <= |Downsampled(mode, raw, width, height)|
    ensures Downsampled(mode, raw, width, height)[..width * height] == raw[..width * height]
  {
    PlaneSizes(raw, width, height);
    StridesAre(width, height);
    var area := Strides(width, height);
    assert |Downsampled(mode, raw, width, height)| == area + area / 2;
  }

  /** Byte `k` of UV row `i` is input byte `width * height + i * 2 * width + k`. */
  lemma UvRowAt(raw: seq<byte>, width: nat, height: nat, i: nat, k: nat)
    requires Nv24Frame(raw, width, height) && i < height && k < 2 * width
    ensures Strides(2 * width, i + 1) <= |UvPlane(raw, width, height)|
    ensures width * height + i * (2 * width) + k < |raw|
    ensures UvRow(UvPlane(raw, width, height), width, i)[k] == raw[width * height + i * (2 * width) + k]
  {
    StridesGrow(2 * width, i + 1, height);
    StridesAre(2 * width, i);
    StridesAre(width, height);
  }

  /** A frame whose UV plane holds one value comes out with every chroma byte set to it. */
  lemma {:induction false} UniformChroma(mode: Mode, uv: seq<byte>, width: nat, rows: nat, c: byte)
    requires width % 2 == 0 && Strides(2 * width, 2 * rows) <= |uv|
    requires forall i :: 0 <= i < |uv| ==> uv[i] == c
    ensures forall i :: 0 <= i < |Chroma(mode, uv, width, rows)| ==> Chroma(mode, uv, width, rows)[i] == c
  {
    if rows > 0 {
      var k := rows - 1;
      assert rows == k + 1;
      ChromaStep(mode, uv, width, k);
      UniformChroma(mode, uv, width, k, c);
      StridesNext(2 * width, 2 * k);
      StridesNext(2 * width, 2 * k + 1);
      UniformRow(mode, UvRow(uv, width, 2 * k), UvRow(uv, width, 2 * k + 1), width, c);
    }
  }

  /** Downsampling a frame of one chroma value keeps the Y plane and sets every chroma byte to that value. */
  lemma UniformFrame(mode: Mode, raw: seq<byte>, width: nat, height: nat, c: byte)
    requires Nv24Frame(raw, width, height)
    requires forall i :: width * height <= i < |raw| ==> raw[i] == c
    ensures width * height <= |Downsampled(mode, raw, width, height)|
    ensures forall i :: width * height <= i < |Downsampled(mode, raw, width, height)| ==> Downsampled(mode, raw, width, height)[i] == c
  {
    OutputShape(mode, raw, width, height);
    StridesAre(width, height);
    var uv := UvPlane(raw, width, height);
    UniformChroma(mode, uv, width, height / 2, c);
  }
}
