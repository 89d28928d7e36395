/** The host's BGRA to NV12 conversion and the viewer's NV12 to RGBA conversion, with colour
    coefficients as exact thousandths and millionths. */
module Colour {
  import opened Arithmetic
  import opened Bytes

  function Clamp(n: int): byte {
    if n < 0 then 0 else if n > 255 then 255 else n as byte
  }

  // ---------- The viewer: NV12 to RGBA ----------

  const OPAQUE: byte := 255

  /** One pixel as R, G, B, A. */
  function Pixel(luma: byte, u: byte, v: byte): (r: seq<byte>)
    ensures |r| == 4
  {
    var y, du, dv := luma as int, u as int - 128, v as int - 128;
    [Clamp(RoundDiv(1000 * y + 1402 * dv, 1000)),
     Clamp(RoundDiv(1_000_000 * y - 344_136 * du - 714_136 * dv, 1_000_000)),
     Clamp(RoundDiv(1000 * y + 1772 * du, 1000)),
     OPAQUE]
  }

  function HalfUp(n: nat): nat {
    (n + 1) / 2
  }

  /** The shortest NV12 buffer the size check lets through. */
  function Nv12Length(width: nat, height: nat): nat {
    width * height + width * HalfUp(height)
  }

  function UvIndex(width: nat, height: nat, y: nat, x: nat): nat {
    width * height + y / 2 * width + x / 2 * 2
  }

  /** Both chroma reads of a pixel are in range. */
  predicate ReadsInRange(len: nat, width: nat, height: nat) {
    forall y, x | 0 <= y < height && 0 <= x < width :: UvIndex(width, height, y, x) + 1 < len
  }

  lemma {:induction false} UvBound(width: nat, height: nat, y: nat, x: nat)
    requires y < height && x < width
    ensures UvIndex(width, height, y, x) + 1 < Nv12Length(width, height) + width % 2
  {
    var rows := HalfUp(height);
    assert y / 2 <= rows - 1;
    assert y / 2 * width <= (rows - 1) * width;
    assert (rows - 1) * width == rows * width - width;
    assert width * rows == rows * width;
  }

  /** A buffer that passes the size check is read inside its bounds exactly when the width is even,
      the picture has no rows, or the buffer has a byte to spare: an odd width makes the last
      chroma pair end one byte past the checked length. */
  lemma {:induction false} ReadsInRangeExactlyWhen(len: nat, width: nat, height: nat)
    requires len >= Nv12Length(width, height)
    ensures ReadsInRange(len, width, height)
            <==> width % 2 == 0 || height == 0 || len > Nv12Length(width, height)
  {
    forall y, x | 0 <= y < height && 0 <= x < width
      ensures UvIndex(width, height, y, x) + 1
              < len + if width % 2 == 1 && len == Nv12Length(width, height) then 1 else 0
    {
      UvBound(width, height, y, x);
    }
    if width % 2 == 1 && height > 0 && len == Nv12Length(width, height) {
      var y, x := height - 1, width - 1;
      assert y / 2 == HalfUp(height) - 1;
      assert (HalfUp(height) - 1) * width == HalfUp(height) * width - width;
      assert width * HalfUp(height) == HalfUp(height) * width;
      assert UvIndex(width, height, y, x) + 1 == len;
    }
  }

  /** A buffer the conversion reads without leaving its bounds. */
  predicate Readable(data: seq<byte>, width: nat, height: nat) {
    |data| >= Nv12Length(width, height) && ReadsInRange(|data|, width, height)
  }

  function PixelAt(data: seq<byte>, width: nat, height: nat, y: nat, x: nat): (r: seq<byte>)
    requires Readable(data, width, height) && y < height && x < width
    ensures |r| == 4
  {
    GridBound(y, x, height, width);
    var uv := UvIndex(width, height, y, x);
    assert uv + 1 < |data|;
    Pixel(data[y * width + x], data[uv], data[uv + 1])
  }

  /** The first n pixels of row y. */
  function RowOf(data: seq<byte>, width: nat, height: nat, y: nat, n: nat): (r: seq<byte>)
    requires Readable(data, width, height) && y < height && n <= width
    ensures |r| == 4 * n
  {
    if n == 0 then [] else RowOf(data, width, height, y, n - 1) + PixelAt(data, width, height, y, n - 1)
  }

  /** The first n rows of the picture. */
  function Picture(data: seq<byte>, width: nat, height: nat, n: nat): (r: seq<byte>)
    requires Readable(data, width, height) && n <= height
    ensures |r| == n * (4 * width)
  {
    if n == 0 then []
    else
      OneMore(n, 4 * width);
      Picture(data, width, height, n - 1) + RowOf(data, width, height, n - 1, width)
  }

  lemma {:induction false} RowOfAt(data: seq<byte>, width: nat, height: nat, y: nat, n: nat, x: nat)
    requires Readable(data, width, height) && y < height && x < n <= width
    ensures RowOf(data, width, height, y, n)[4 * x..4 * x + 4] == PixelAt(data, width, height, y, x)
    decreases n
  {
    hide PixelAt, Readable;
    var front, last := RowOf(data, width, height, y, n - 1), PixelAt(data, width, height, y, n - 1);
    if x < n - 1 {
      RowOfAt(data, width, height, y, n - 1, x);
      SliceOfFirst(front, last, 4 * x, 4 * x + 4);
    } else {
      SliceOfSecond(front, last, 0, 4);
    }
  }

  lemma {:induction false} SliceOfFirst(s: seq<byte>, t: seq<byte>, from: nat, to: nat)
    requires from <= to <= |s|
    ensures (s + t)[from..to] == s[from..to]
  {
  }

  lemma {:induction false} SliceOfSecond(s: seq<byte>, t: seq<byte>, from: nat, to: nat)
    requires from <= to <= |t|
    ensures (s + t)[|s| + from..|s| + to] == t[from..to]
  {
  }

  lemma {:induction false} PictureStep(data: seq<byte>, width: nat, height: nat, n: nat)
    requires Readable(data, width, height) && n < height
    ensures Picture(data, width, height, n + 1) ==
            Picture(data, width, height, n) + RowOf(data, width, height, n, width)
  {
    hide RowOf, Readable;
  }

  /** Each pixel of the picture sits at its place in rows of 4 * width bytes. */
  lemma {:induction false} PictureAt(data: seq<byte>, width: nat, height: nat, n: nat, y: nat, x: nat, i: nat)
    requires Readable(data, width, height) && y < n <= height && x < width && i == y * (4 * width) + 4 * x
    ensures i + 4 <= n * (4 * width)
    ensures Picture(data, width, height, n)[i..i + 4] == PixelAt(data, width, height, y, x)
    decreases n
  {
    hide PixelAt, RowOf, Picture, Readable;
    GridBound(y, 4 * x + 3, n, 4 * width);
    PictureStep(data, width, height, n - 1);
    var front, last := Picture(data, width, height, n - 1), RowOf(data, width, height, n - 1, width);
    if y < n - 1 {
      PictureAt(data, width, height, n - 1, y, x, i);
      SliceOfFirst(front, last, i, i + 4);
    } else {
      assert i == |front| + 4 * x;
      RowOfAt(data, width, height, y, width, x);
      SliceOfSecond(front, last, 4 * x, 4 * x + 4);
    }
  }

  method PushYuvAsRgba(out: seq<byte>, y: byte, u: byte, v: byte) returns (r: seq<byte>)
    ensures r == out + Pixel(y, u, v)
  {
    var luma, du, dv := y as int, u as int - 128, v as int - 128;
    var red := RoundDiv(1000 * luma + 1402 * dv, 1000);
    var green := RoundDiv(1_000_000 * luma - 344_136 * du - 714_136 * dv, 1_000_000);
    var blue := RoundDiv(1000 * luma + 1772 * du, 1000);
    r := out + [Clamp(red), Clamp(green), Clamp(blue), OPAQUE];
  }

  /** The first x pixels of row y have their chroma in range. */
  ghost predicate RowInRange(len: nat, width: nat, height: nat, y: nat, x: nat) {
    forall u | 0 <= u < x :: UvIndex(width, height, y, u) + 1 < len
  }

  lemma {:induction false} RowsInRange(len: nat, width: nat, height: nat)
    ensures ReadsInRange(len, width, height) <==> forall y | 0 <= y < height :: RowInRange(len, width, height, y, width)
  {
    hide UvIndex;
    if forall y | 0 <= y < height :: RowInRange(len, width, height, y, width) {
      forall y, x | 0 <= y < height && 0 <= x < width
        ensures UvIndex(width, height, y, x) + 1 < len
      {
        assert RowInRange(len, width, height, y, width);
      }
    }
  }

  /** `Err` for a short buffer, a panic for the length whose last chroma read is out of bounds, and
      the picture for every other. */
  method Nv12ToRgba(data: seq<byte>, width: nat, height: nat) returns (r: Outcome<Result<seq<byte>>>)
    ensures r == Returned(Err) <==> |data| < Nv12Length(width, height)
    ensures r == OutOfBounds <==> |data| == Nv12Length(width, height) && width % 2 == 1 && height > 0
    ensures r.Returned? && r.value.Ok? ==>
              Readable(data, width, height) && r.value.value == Picture(data, width, height, height)
  {
    if |data| < Nv12Length(width, height) {
      return Returned(Err);
    }
    assert |data| >= width * height;
    ReadsInRangeExactlyWhen(|data|, width, height);
    RowsInRange(|data|, width, height);
    EmptyPicture(data, width, height);
    hide RowOf, RowInRange, ReadsInRange, Nv12Length, Picture;
    var rgba: seq<byte> := [];
    for y := 0 to height
      invariant forall v | 0 <= v < y :: RowInRange(|data|, width, height, v, width)
      invariant Readable(data, width, height) ==> rgba == Picture(data, width, height, y)
    {
      var extended := AppendRow(rgba, data, width, height, y);
      if extended.OutOfBounds? {
        return OutOfBounds;
      }
      rgba := extended.value;
      if Readable(data, width, height) {
        PictureStep(data, width, height, y);
      }
    }
    return Returned(Ok(rgba));
  }

  lemma {:induction false} EmptyPicture(data: seq<byte>, width: nat, height: nat)
    ensures Readable(data, width, height) ==> Picture(data, width, height, 0) == []
  {
  }

  method AppendRow(rgba: seq<byte>, data: seq<byte>, width: nat, height: nat, y: nat)
    returns (r: Outcome<seq<byte>>)
    requires |data| >= width * height && y < height
    ensures r.Returned? <==> RowInRange(|data|, width, height, y, width)
    ensures r.Returned? && Readable(data, width, height) ==> r.value == rgba + RowOf(data, width, height, y, width)
  {
    hide PixelAt, Pixel, UvIndex, Nv12Length, ReadsInRange;
    var out := rgba;
    for x := 0 to width
      invariant RowInRange(|data|, width, height, y, x)
      invariant Readable(data, width, height) ==> out == rgba + RowOf(data, width, height, y, x)
    {
      var pixel := ReadPixel(data, width, height, y, x);
      if pixel.OutOfBounds? {
        return OutOfBounds;
      }
      out := PushYuvAsRgba(out, pixel.value.0, pixel.value.1, pixel.value.2);
      if Readable(data, width, height) {
        Associate(rgba, RowOf(data, width, height, y, x), PixelAt(data, width, height, y, x));
      }
    }
    return Returned(out);
  }

  /** Luma and chroma of a pixel. */
  method ReadPixel(data: seq<byte>, width: nat, height: nat, y: nat, x: nat)
    returns (r: Outcome<(byte, byte, byte)>)
    requires |data| >= width * height && y < height && x < width
    ensures r.OutOfBounds? <==> UvIndex(width, height, y, x) + 1 >= |data|
    ensures r.Returned? && Readable(data, width, height) ==>
              Pixel(r.value.0, r.value.1, r.value.2) == PixelAt(data, width, height, y, x)
  {
    hide Pixel;
    GridBound(y, x, height, width);
    var luma := data[y * width + x];
    var uvIndex := width * height + y / 2 * width + x / 2 * 2;
    if uvIndex >= |data| || uvIndex + 1 >= |data| {
      return OutOfBounds;
    }
    return Returned((luma, data[uvIndex], data[uvIndex + 1]));
  }

  // ---------- The host: BGRA to NV12 ----------

  datatype PixelFormat = Bgra8 | OtherFormat

  datatype Frame = Frame(data: seq<byte>, width: nat, height: nat, format: PixelFormat)

  predicate ValidFrame(f: Frame) {
    && f.width != 0 && f.height != 0
    && f.width % 2 == 0 && f.height % 2 == 0
    && f.format == Bgra8
    && |f.data| == f.width * f.height * 4
  }

  /** Thousandths of the three components of a pixel, before any rounding. */
  function LumaOf(b: byte, g: byte, r: byte): int {
    257 * r as int + 504 * g as int + 98 * b as int + 16_000
  }

  function UOf(b: byte, g: byte, r: byte): int {
    -148 * r as int - 291 * g as int + 439 * b as int + 128_000
  }

  function VOf(b: byte, g: byte, r: byte): int {
    439 * r as int - 368 * g as int - 71 * b as int + 128_000
  }

  /** Whatever the colour, luma stays in [16, 235] and chroma in [16, 240] after rounding. */
  lemma {:induction false} ComponentRanges(b: byte, g: byte, r: byte)
    ensures 16_000 <= LumaOf(b, g, r) <= 235_045
    ensures 16_055 <= UOf(b, g, r) <= 239_945
    ensures 16_055 <= VOf(b, g, r) <= 239_945
  {
  }

  lemma {:induction false} AreaOf(f: Frame, y: nat, x: nat)
    requires ValidFrame(f) && y < f.height && x < f.width
    ensures (y * f.width + x) * 4 + 3 < |f.data|
    ensures y * f.width + x < f.width * f.height
  {
    GridBound(y, x, f.height, f.width);
  }

  function LumaAt(f: Frame, p: nat): (r: byte)
    requires ValidFrame(f) && p < f.width * f.height
    ensures 16 <= r <= 235
  {
    var n := LumaOf(f.data[p * 4], f.data[p * 4 + 1], f.data[p * 4 + 2]);
    ComponentRanges(f.data[p * 4], f.data[p * 4 + 1], f.data[p * 4 + 2]);
    Clamp(RoundDiv(n, 1000))
  }

  function ComponentAt(f: Frame, y: nat, x: nat, isU: bool): (n: int)
    requires ValidFrame(f) && y < f.height && x < f.width
    ensures 16_055 <= n <= 239_945
  {
    AreaOf(f, y, x);
    var i := (y * f.width + x) * 4;
    ComponentRanges(f.data[i], f.data[i + 1], f.data[i + 2]);
    if isU then UOf(f.data[i], f.data[i + 1], f.data[i + 2]) else VOf(f.data[i], f.data[i + 1], f.data[i + 2])
  }

  /** Four times the mean over the 2 by 2 block whose top left pixel is (y, x). */
  function BlockSum(f: Frame, y: nat, x: nat, isU: bool): (n: int)
    requires ValidFrame(f) && y + 1 < f.height && x + 1 < f.width
    ensures 64_220 <= n <= 959_780
  {
    ComponentAt(f, y, x, isU) + ComponentAt(f, y, x + 1, isU)
    + ComponentAt(f, y + 1, x, isU) + ComponentAt(f, y + 1, x + 1, isU)
  }

  function ChromaAt(f: Frame, y: nat, x: nat, isU: bool): (r: byte)
    requires ValidFrame(f) && y + 1 < f.height && x + 1 < f.width
    ensures 16 <= r <= 240
  {
    Clamp(RoundDiv(BlockSum(f, y, x, isU), 4000))
  }

  lemma {:induction false} HalfArea(width: nat, height: nat)
    requires height % 2 == 0
    ensures width * height / 2 == height / 2 * width && width * height % 2 == 0
  {
    var h := height / 2;
    assert width * height == 2 * (h * width);
  }

  function LumaPlane(f: Frame): (r: seq<byte>)
    requires ValidFrame(f)
    ensures |r| == f.width * f.height
  {
    seq(f.width * f.height, p requires 0 <= p < f.width * f.height => LumaAt(f, p))
  }

  /** The first n chroma pairs of the block row whose top is y. */
  function ChromaRow(f: Frame, y: nat, n: nat): (r: seq<byte>)
    requires ValidFrame(f) && y + 1 < f.height && 2 * n <= f.width
    ensures |r| == 2 * n
  {
    if n == 0 then []
    else ChromaRow(f, y, n - 1) + [ChromaAt(f, y, 2 * n - 2, true), ChromaAt(f, y, 2 * n - 2, false)]
  }

  /** The first n block rows of the chroma plane. */
  function ChromaPlane(f: Frame, n: nat): (r: seq<byte>)
    requires ValidFrame(f) && 2 * n <= f.height
    ensures |r| == n * f.width
  {
    if n == 0 then []
    else
      OneMore(n, f.width);
      ChromaPlane(f, n - 1) + ChromaRow(f, 2 * n - 2, f.width / 2)
  }

  lemma {:induction false} ChromaRowAt(f: Frame, y: nat, n: nat, x: nat)
    requires ValidFrame(f) && y + 1 < f.height && x < n && 2 * n <= f.width
    ensures ChromaRow(f, y, n)[2 * x] == ChromaAt(f, y, 2 * x, true)
    ensures ChromaRow(f, y, n)[2 * x + 1] == ChromaAt(f, y, 2 * x, false)
    decreases n
  {
    hide ChromaAt, ValidFrame;
    if x < n - 1 {
      ChromaRowAt(f, y, n - 1, x);
    }
  }

  /** The pair of block (y, x) sits in row y of the plane, at columns 2x and 2x + 1. */
  lemma {:induction false} ChromaPlaneAt(f: Frame, n: nat, y: nat, x: nat)
    requires ValidFrame(f) && y < n && 2 * n <= f.height && 2 * x + 1 < f.width
    ensures y * f.width + 2 * x + 1 < n * f.width
    ensures ChromaPlane(f, n)[y * f.width + 2 * x] == ChromaAt(f, 2 * y, 2 * x, true)
    ensures ChromaPlane(f, n)[y * f.width + 2 * x + 1] == ChromaAt(f, 2 * y, 2 * x, false)
    decreases n
  {
    hide ChromaAt;
    GridBound(y, 2 * x + 1, n, f.width);
    if y < n - 1 {
      ChromaPlaneAt(f, n - 1, y, x);
    } else {
      ChromaRowAt(f, 2 * y, f.width / 2, x);
    }
  }

  /** The encoded frame: luma plane, then interleaved chroma. */
  function Nv12Of(f: Frame): (r: seq<byte>)
    requires ValidFrame(f)
    ensures |r| == f.width * f.height + f.height / 2 * f.width
  {
    LumaPlane(f) + ChromaPlane(f, f.height / 2)
  }

  method BgraToNv12(f: Frame) returns (r: Result<seq<byte>>)
    ensures r == if ValidFrame(f) then Ok(Nv12Of(f)) else Err
    ensures r.Ok? <==> f.width > 0 && f.height > 0 && f.width % 2 == 0 && f.height % 2 == 0
                       && f.format == Bgra8 && |f.data| == f.width * f.height * 4
  {
    if f.width == 0 || f.height == 0 {
      return Err;
    }
    if f.width % 2 != 0 || f.height % 2 != 0 {
      return Err;
    }
    if f.format != Bgra8 {
      return Err;
    }
    if |f.data| != f.width * f.height * 4 {
      return Err;
    }
    HalfArea(f.width, f.height);
    var yLen := f.width * f.height;
    var out := new byte[yLen + yLen / 2](_ => 0);
    FillLuma(f, out);
    FillChroma(f, out);
    CutInTwo(out[..], yLen);
    return Ok(out[..]);
  }

  method FillLuma(f: Frame, out: array<byte>)
    requires ValidFrame(f) && out.Length >= f.width * f.height
    modifies out
    ensures out[..f.width * f.height] == LumaPlane(f)
  {
    ghost var plane := LumaPlane(f);
    hide LumaPlane;
    for y := 0 to f.height
      invariant y * f.width <= f.width * f.height
      invariant out[..y * f.width] == plane[..y * f.width]
    {
      GridRow(y, f.height, f.width);
      FillLumaRow(f, out, y * f.width);
    }
    assert plane[..f.height * f.width] == plane;
  }

  /** One row of luma, written from position `start` on. */
  method FillLumaRow(f: Frame, out: array<byte>, start: nat)
    requires ValidFrame(f) && start + f.width <= f.width * f.height <= out.Length
    requires out[..start] == LumaPlane(f)[..start]
    modifies out
    ensures out[..start + f.width] == LumaPlane(f)[..start + f.width]
  {
    ghost var plane := LumaPlane(f);
    for x := 0 to f.width
      invariant out[..start + x] == plane[..start + x]
    {
      var p := start + x;
      var idx := p * 4;
      out[p] := Clamp(RoundDiv(LumaOf(f.data[idx], f.data[idx + 1], f.data[idx + 2]), 1000));
      assert out[p] == plane[p];
    }
  }

  /** Fills the chroma plane and leaves the luma plane as it is. */
  method FillChroma(f: Frame, out: array<byte>)
    requires ValidFrame(f) && out.Length == f.width * f.height + f.height / 2 * f.width
    modifies out
    ensures out[..f.width * f.height] == old(out[..f.width * f.height])
    ensures out[f.width * f.height..] == ChromaPlane(f, f.height / 2)
  {
    hide ChromaRow;
    var yLen := f.width * f.height;
    ghost var luma := out[..yLen];
    var y := 0;
    while y < f.height
      invariant y % 2 == 0 && y <= f.height
      invariant y / 2 * f.width <= f.height / 2 * f.width
      invariant out[..yLen + y / 2 * f.width] == luma + ChromaPlane(f, y / 2)
    {
      GridRow(y / 2, f.height / 2, f.width);
      ghost var before := luma + ChromaPlane(f, y / 2);
      FillChromaRow(f, out, y, yLen + y / 2 * f.width);
      Associate(luma, ChromaPlane(f, y / 2), ChromaRow(f, y, f.width / 2));
      assert (y + 2) / 2 == y / 2 + 1;
      y := y + 2;
    }
    assert out[..] == luma + ChromaPlane(f, f.height / 2);
  }

  /** One row of chroma pairs, written from position `start` on. */
  method FillChromaRow(f: Frame, out: array<byte>, y: nat, start: nat)
    requires ValidFrame(f) && y + 1 < f.height && start + f.width <= out.Length
    modifies out
    ensures out[..start + f.width] == old(out[..start]) + ChromaRow(f, y, f.width / 2)
  {
    ghost var blocks := f.width / 2;
    assert f.width == 2 * blocks;
    EmptyChromaRow(f, y);
    var x := 0;
    ghost var before, n := out[..start], 0;
    while x < f.width
      invariant x == 2 * n && n <= blocks
      invariant out[..start + x] == before + ChromaRow(f, y, n)
    {
      FillBlock(f, out, y, x, start, before, n);
      x := x + 2;
      n := n + 1;
      assert out[..start + x] == before + ChromaRow(f, y, n);
    }
    assert x == f.width && n == blocks;
  }

  /** The pair of one block, written behind the n pairs before it. */
  method FillBlock(f: Frame, out: array<byte>, y: nat, x: nat, start: nat, ghost before: seq<byte>, ghost n: nat)
    requires ValidFrame(f) && y + 1 < f.height && x == 2 * n && x + 1 < f.width && start + x + 1 < out.Length
    requires out[..start + x] == before + ChromaRow(f, y, n)
    modifies out
    ensures out[..start + x + 2] == before + ChromaRow(f, y, n + 1)
  {
    hide BlockSum, RoundDiv, Clamp, ChromaRow, ChromaAt, ValidFrame;
    var u := SumBlock(f, y, x, true);
    var v := SumBlock(f, y, x, false);
    var b1, b2 := Clamp(RoundDiv(u, 4000)), Clamp(RoundDiv(v, 4000));
    ChromaRowStep(f, y, n);
    Associate(before, ChromaRow(f, y, n), [b1, b2]);
    WritePair(out, start + x, b1, b2, before + ChromaRow(f, y, n));
  }

  method WritePair(out: array<byte>, i: nat, u: byte, v: byte, ghost before: seq<byte>)
    requires i + 1 < out.Length && out[..i] == before
    modifies out
    ensures out[..i + 2] == before + [u, v]
  {
    out[i], out[i + 1] := u, v;
  }

  lemma {:induction false} EmptyChromaRow(f: Frame, y: nat)
    requires ValidFrame(f) && y + 1 < f.height
    ensures ChromaRow(f, y, 0) == []
  {
  }

  lemma {:induction false} ChromaRowStep(f: Frame, y: nat, n: nat)
    requires ValidFrame(f) && y + 1 < f.height && 2 * n < f.width
    ensures ChromaRow(f, y, n + 1) ==
            ChromaRow(f, y, n) + [Clamp(RoundDiv(BlockSum(f, y, 2 * n, true), 4000)),
                                  Clamp(RoundDiv(BlockSum(f, y, 2 * n, false), 4000))]
  {
    hide Clamp, RoundDiv, BlockSum;
  }

  method SumBlock(f: Frame, y: nat, x: nat, isU: bool) returns (sum: int)
    requires ValidFrame(f) && y + 1 < f.height && x + 1 < f.width
    ensures sum == BlockSum(f, y, x, isU)
  {
    sum := 0;
    for dy := 0 to 2
      invariant dy == 0 ==> sum == 0
      invariant dy == 1 ==> sum == ComponentAt(f, y, x, isU) + ComponentAt(f, y, x + 1, isU)
      invariant dy == 2 ==> sum == BlockSum(f, y, x, isU)
    {
      ghost var before := sum;
      for dx := 0 to 2
        invariant dx == 0 ==> sum == before
        invariant dx == 1 ==> sum == before + ComponentAt(f, y + dy, x, isU)
        invariant dx == 2 ==> sum == before + ComponentAt(f, y + dy, x, isU) + ComponentAt(f, y + dy, x + 1, isU)
      {
        AreaOf(f, y + dy, x + dx);
        var idx := ((y + dy) * f.width + (x + dx)) * 4;
        var b, g, r := f.data[idx], f.data[idx + 1], f.data[idx + 2];
        sum := sum + if isU then UOf(b, g, r) else VOf(b, g, r);
      }
    }
  }

  /** No sample of an encoded frame needs the clamp: rounding alone lands in a byte. */
  lemma {:induction false} ClampNeverFires(f: Frame, p: nat, y: nat, x: nat)
    requires ValidFrame(f) && p < f.width * f.height && y + 1 < f.height && x + 1 < f.width
    ensures LumaAt(f, p) as int ==
            RoundDiv(LumaOf(f.data[p * 4], f.data[p * 4 + 1], f.data[p * 4 + 2]), 1000)
    ensures ChromaAt(f, y, x, true) as int == RoundDiv(BlockSum(f, y, x, true), 4000)
    ensures ChromaAt(f, y, x, false) as int == RoundDiv(BlockSum(f, y, x, false), 4000)
  {
    ComponentRanges(f.data[p * 4], f.data[p * 4 + 1], f.data[p * 4 + 2]);
  }

  // ---------- The encoded bytes on the frame's own bytes ----------

  /** rounded is n / d to the nearest integer, halves away from zero. */
  predicate NearestTo(rounded: int, n: int, d: nat) {
    var twice := 2 * (rounded * d) - 2 * n;
    -(d as int) <= twice <= d && (twice == d ==> n >= 0) && (twice == -(d as int) ==> n < 0)
  }

  /** The luma byte of each pixel is the rounded weighted sum of its own red, green and blue. */
  lemma {:induction false} EncodedLuma(f: Frame, y: nat, x: nat, i: nat)
    requires ValidFrame(f) && y < f.height && x < f.width && i == y * f.width + x
    ensures i * 4 + 2 < |f.data| && i < |Nv12Of(f)|
    ensures NearestTo(Nv12Of(f)[i] as int,
                      257 * f.data[i * 4 + 2] as int + 504 * f.data[i * 4 + 1] as int + 98 * f.data[i * 4] as int
                      + 16_000, 1000)
  {
    AreaOf(f, y, x);
    assert Nv12Of(f)[i] == LumaPlane(f)[i] == LumaAt(f, i);
    hide Nv12Of, LumaPlane, RoundDiv, Clamp;
    var b, g, r := f.data[i * 4], f.data[i * 4 + 1], f.data[i * 4 + 2];
    ComponentRanges(b, g, r);
    ClampKeeps(LumaOf(b, g, r), 1000, 0, 255);
    RoundNearest(LumaOf(b, g, r), 1000);
  }

  /** Blue, green or red of the four pixels of the block whose upper and lower left bytes are at p
      and q, added up. */
  function BlockTotal(d: seq<byte>, p: nat, q: nat, channel: nat): int
    requires channel < 4 && p + 7 < |d| && q + 7 < |d|
  {
    d[p + channel] as int + d[p + 4 + channel] as int + d[q + channel] as int + d[q + 4 + channel] as int
  }

  lemma {:induction false} BlockSumIsTotal(f: Frame, y: nat, x: nat, p: nat, q: nat)
    requires ValidFrame(f) && y + 1 < f.height && x + 1 < f.width
    requires p == (y * f.width + x) * 4 && q == ((y + 1) * f.width + x) * 4
    ensures p + 7 < |f.data| && q + 7 < |f.data|
    ensures var b, g, r := BlockTotal(f.data, p, q, 0), BlockTotal(f.data, p, q, 1), BlockTotal(f.data, p, q, 2);
      && BlockSum(f, y, x, true) == -148 * r - 291 * g + 439 * b + 512_000
      && BlockSum(f, y, x, false) == 439 * r - 368 * g - 71 * b + 512_000
  {
    AreaOf(f, y, x + 1);
    AreaOf(f, y + 1, x + 1);
  }

  /** The two chroma bytes of each 2 by 2 block are the rounded means of its four pixels' weighted
      sums. */
  lemma {:induction false} EncodedChroma(f: Frame, y: nat, x: nat, p: nat, q: nat, uv: nat)
    requires ValidFrame(f) && 2 * y + 1 < f.height && 2 * x + 1 < f.width
    requires p == (2 * y * f.width + 2 * x) * 4 && q == ((2 * y + 1) * f.width + 2 * x) * 4
    requires uv == f.width * f.height + y * f.width + 2 * x
    ensures p + 7 < |f.data| && q + 7 < |f.data| && uv + 1 < |Nv12Of(f)|
    ensures var b, g, r := BlockTotal(f.data, p, q, 0), BlockTotal(f.data, p, q, 1), BlockTotal(f.data, p, q, 2);
      && NearestTo(Nv12Of(f)[uv] as int, -148 * r - 291 * g + 439 * b + 512_000, 4000)
      && NearestTo(Nv12Of(f)[uv + 1] as int, 439 * r - 368 * g - 71 * b + 512_000, 4000)
  {
    hide BlockSum, ChromaAt, BlockTotal, NearestTo, Nv12Of, ValidFrame;
    var top, left := 2 * y, 2 * x;
    BlockSumIsTotal(f, top, left, p, q);
    ChromaNearest(f, top, left, true);
    ChromaNearest(f, top, left, false);
    ChromaBytes(f, y, x, uv);
  }

  lemma {:induction false} ChromaBytes(f: Frame, y: nat, x: nat, uv: nat)
    requires ValidFrame(f) && 2 * y + 1 < f.height && 2 * x + 1 < f.width
    requires uv == f.width * f.height + y * f.width + 2 * x
    ensures uv + 1 < |Nv12Of(f)|
    ensures Nv12Of(f)[uv] == ChromaAt(f, 2 * y, 2 * x, true)
    ensures Nv12Of(f)[uv + 1] == ChromaAt(f, 2 * y, 2 * x, false)
  {
    hide ChromaAt, ChromaPlane, LumaPlane;
    ChromaPlaneAt(f, f.height / 2, y, x);
    GridBound(0, 0, f.height, f.width);
    PlanesAt(LumaPlane(f), ChromaPlane(f, f.height / 2), 0, y * f.width + 2 * x);
  }

  lemma {:induction false} ChromaNearest(f: Frame, y: nat, x: nat, isU: bool)
    requires ValidFrame(f) && y + 1 < f.height && x + 1 < f.width
    ensures NearestTo(ChromaAt(f, y, x, isU) as int, BlockSum(f, y, x, isU), 4000)
  {
    var n := BlockSum(f, y, x, isU);
    hide BlockSum, RoundDiv, Clamp;
    ClampKeeps(n, 4000, 0, 255);
    RoundNearest(n, 4000);
  }

  // ---------- The decoded bytes on the buffer's own bytes ----------

  /** out is n / d to the nearest level, and the nearer end of the range when n / d is beyond it. */
  predicate NearestLevel(out: byte, n: int, d: nat) {
    if n <= 0 then out == 0
    else if n >= 255 * d then out == 255
    else NearestTo(out as int, n, d)
  }

  lemma {:induction false} ClampSaturates(n: int, d: nat)
    requires d > 0
    ensures NearestLevel(Clamp(RoundDiv(n, d)), n, d)
  {
    RoundNearest(n, d);
    if n <= 0 {
      RoundSign(n, d);
    } else if n >= 255 * d {
      DivAtLeast(2 * n + d, 2 * d, 255);
    } else {
      ClampKeeps(n, d, 0, 255);
    }
  }

  lemma {:induction false} RoundSign(n: int, d: nat)
    requires d > 0 && n <= 0
    ensures RoundDiv(n, d) <= 0
  {
    DivAtLeast(-2 * n + d, 2 * d, 0);
  }

  /** Every byte of the picture from the buffer's own bytes: red, green and blue are the nearest levels
      of the pixel's luma and its block's chroma, saturated at both ends. */
  lemma {:induction false} PictureByte(data: seq<byte>, width: nat, height: nat, y: nat, x: nat,
                                       i: nat, p: nat, uv: nat)
    requires |data| >= Nv12Length(width, height) && ReadsInRange(|data|, width, height)
    requires y < height && x < width
    requires i == y * (4 * width) + 4 * x && p == y * width + x && uv == width * height + y / 2 * width + x / 2 * 2
    ensures i + 3 < |Picture(data, width, height, height)| && p < |data| && uv + 1 < |data|
    ensures var rgba := Picture(data, width, height, height);
      var luma, du, dv := data[p] as int, data[uv] as int - 128, data[uv + 1] as int - 128;
      && NearestLevel(rgba[i], 1000 * luma + 1402 * dv, 1000)
      && NearestLevel(rgba[i + 1], 1_000_000 * luma - 344_136 * du - 714_136 * dv, 1_000_000)
      && NearestLevel(rgba[i + 2], 1000 * luma + 1772 * du, 1000)
      && rgba[i + 3] == 255
  {
    PictureAt(data, width, height, height, y, x, i);
    PixelBytes(data, width, height, y, x, p, uv);
    PixelLevels(data[p], data[uv], data[uv + 1]);
    hide Pixel, PixelAt, NearestLevel, ReadsInRange, Readable, Nv12Length;
    FourOf(Picture(data, width, height, height), i, PixelAt(data, width, height, y, x));
  }

  lemma {:induction false} PixelBytes(data: seq<byte>, width: nat, height: nat, y: nat, x: nat, p: nat, uv: nat)
    requires Readable(data, width, height) && y < height && x < width
    requires p == y * width + x && uv == width * height + y / 2 * width + x / 2 * 2
    ensures p < |data| && uv + 1 < |data|
    ensures PixelAt(data, width, height, y, x) == Pixel(data[p], data[uv], data[uv + 1])
  {
    hide Pixel;
    GridBound(y, x, height, width);
    assert UvIndex(width, height, y, x) + 1 < |data|;
  }

  lemma {:induction false} FourOf(s: seq<byte>, i: nat, t: seq<byte>)
    requires i + 4 <= |s| && |t| == 4 && s[i..i + 4] == t
    ensures s[i] == t[0] && s[i + 1] == t[1] && s[i + 2] == t[2] && s[i + 3] == t[3]
  {
    assert s[i..i + 4][1] == s[i + 1] && s[i..i + 4][2] == s[i + 2] && s[i..i + 4][3] == s[i + 3];
  }

  lemma {:induction false} PixelLevels(luma: byte, u: byte, v: byte)
    ensures var pixel, y, du, dv := Pixel(luma, u, v), luma as int, u as int - 128, v as int - 128;
      && NearestLevel(pixel[0], 1000 * y + 1402 * dv, 1000)
      && NearestLevel(pixel[1], 1_000_000 * y - 344_136 * du - 714_136 * dv, 1_000_000)
      && NearestLevel(pixel[2], 1000 * y + 1772 * du, 1000)
      && pixel[3] == 255
  {
    var y, du, dv := luma as int, u as int - 128, v as int - 128;
    ClampSaturates(1000 * y + 1402 * dv, 1000);
    ClampSaturates(1_000_000 * y - 344_136 * du - 714_136 * dv, 1_000_000);
    ClampSaturates(1000 * y + 1772 * du, 1000);
    hide NearestLevel, Clamp, RoundDiv;
  }

  // ---------- Host to viewer ----------

  /** Two packed planes of an even-sized picture, as the strided copy and the encoder produce them,
      have exactly the length the viewer checks for and are read in range. */
  lemma {:induction false} PackedPlanesAreReadable(data: seq<byte>, width: nat, height: nat)
    requires width % 2 == 0 && height % 2 == 0 && |data| == height * width + height / 2 * width
    ensures |data| == Nv12Length(width, height) && Readable(data, width, height)
  {
    assert width * HalfUp(height) == height / 2 * width;
    ReadsInRangeExactlyWhen(|data|, width, height);
  }

  /** Row-order position of a pixel. */
  function Cell(f: Frame, y: nat, x: nat): (p: nat)
    requires ValidFrame(f) && y < f.height && x < f.width
    ensures p < f.width * f.height
  {
    AreaOf(f, y, x);
    y * f.width + x
  }

  /** Top or left edge of the 2 by 2 block around a coordinate. */
  function BlockEdge(n: nat, limit: nat): (e: nat)
    requires n < limit && limit % 2 == 0
    ensures e + 1 < limit
  {
    n / 2 * 2
  }

  /** Position of a pixel's chroma pair in the encoded frame. */
  function PairAt(f: Frame, y: nat, x: nat): (uv: nat)
    requires ValidFrame(f) && y < f.height && x < f.width
    ensures uv + 1 < |Nv12Of(f)|
  {
    GridBound(y / 2, x / 2 * 2 + 1, f.height / 2, f.width);
    UvIndex(f.width, f.height, y, x)
  }

  /** Where the bytes of a pixel are in the encoded frame. */
  lemma {:induction false} EncodedBytes(f: Frame, y: nat, x: nat)
    requires ValidFrame(f) && y < f.height && x < f.width
    ensures Nv12Of(f)[Cell(f, y, x)] == LumaAt(f, Cell(f, y, x))
    ensures Nv12Of(f)[PairAt(f, y, x)] == ChromaAt(f, BlockEdge(y, f.height), BlockEdge(x, f.width), true)
    ensures Nv12Of(f)[PairAt(f, y, x) + 1] == ChromaAt(f, BlockEdge(y, f.height), BlockEdge(x, f.width), false)
  {
    hide LumaAt, ChromaAt, ChromaPlane;
    EvenPart(x);
    EvenPart(y);
    ChromaPlaneAt(f, f.height / 2, y / 2, x / 2);
    PlanesAt(LumaPlane(f), ChromaPlane(f, f.height / 2), Cell(f, y, x), y / 2 * f.width + x / 2 * 2);
  }

  /** Each picture pixel is made from its own luma and its block's chroma pair. */
  lemma {:induction false} DecodedPixel(f: Frame, y: nat, x: nat)
    requires ValidFrame(f) && y < f.height && x < f.width
    ensures Readable(Nv12Of(f), f.width, f.height)
    ensures PixelAt(Nv12Of(f), f.width, f.height, y, x) ==
            Pixel(LumaAt(f, Cell(f, y, x)),
                  ChromaAt(f, BlockEdge(y, f.height), BlockEdge(x, f.width), true),
                  ChromaAt(f, BlockEdge(y, f.height), BlockEdge(x, f.width), false))
  {
    hide LumaAt, ChromaAt, Nv12Of, Pixel;
    PackedPlanesAreReadable(Nv12Of(f), f.width, f.height);
    EncodedBytes(f, y, x);
  }

  lemma {:induction false} EvenPart(n: nat)
    ensures n / 2 * 2 == 2 * (n / 2)
  {
  }

  lemma {:induction false} PlanesAt(luma: seq<byte>, chroma: seq<byte>, p: nat, k: nat)
    requires p < |luma| && k + 1 < |chroma|
    ensures (luma + chroma)[p] == luma[p]
    ensures (luma + chroma)[|luma| + k] == chroma[k] && (luma + chroma)[|luma| + k + 1] == chroma[k + 1]
  {
  }

  /** Every pixel has this colour; the fourth byte is not looked at. */
  predicate Uniform(f: Frame, b: byte, g: byte, r: byte) {
    forall i | 0 <= i < |f.data| ::
      f.data[i] == if i % 4 == 0 then b else if i % 4 == 1 then g else if i % 4 == 2 then r else f.data[i]
  }

  lemma {:induction false} UniformAt(f: Frame, b: byte, g: byte, r: byte, p: nat)
    requires ValidFrame(f) && Uniform(f, b, g, r) && p < f.width * f.height
    ensures f.data[p * 4] == b && f.data[p * 4 + 1] == g && f.data[p * 4 + 2] == r
  {
    assert p * 4 % 4 == 0 && (p * 4 + 1) % 4 == 1 && (p * 4 + 2) % 4 == 2;
  }

  lemma {:induction false} UniformBlock(f: Frame, b: byte, g: byte, r: byte, y: nat, x: nat, isU: bool)
    requires ValidFrame(f) && Uniform(f, b, g, r) && y + 1 < f.height && x + 1 < f.width
    ensures BlockSum(f, y, x, isU) == 4 * if isU then UOf(b, g, r) else VOf(b, g, r)
  {
    hide Uniform;
    UniformAt(f, b, g, r, Cell(f, y, x));
    UniformAt(f, b, g, r, Cell(f, y, x + 1));
    UniformAt(f, b, g, r, Cell(f, y + 1, x));
    UniformAt(f, b, g, r, Cell(f, y + 1, x + 1));
  }

  /** What a colour becomes: encoded and decoded. */
  function ColourOut(b: byte, g: byte, r: byte): (pixel: seq<byte>)
    ensures |pixel| == 4
  {
    Pixel(Clamp(RoundDiv(LumaOf(b, g, r), 1000)),
          Clamp(RoundDiv(4 * UOf(b, g, r), 4000)), Clamp(RoundDiv(4 * VOf(b, g, r), 4000)))
  }

  /** A frame of one colour decodes to a picture of one colour. */
  lemma {:induction false} UniformStaysUniform(f: Frame, b: byte, g: byte, r: byte, y: nat, x: nat)
    requires ValidFrame(f) && Uniform(f, b, g, r) && y < f.height && x < f.width
    ensures Readable(Nv12Of(f), f.width, f.height)
    ensures PixelAt(Nv12Of(f), f.width, f.height, y, x) == ColourOut(b, g, r)
  {
    hide BlockSum, RoundDiv, Pixel, Nv12Of;
    DecodedPixel(f, y, x);
    UniformAt(f, b, g, r, Cell(f, y, x));
    UniformBlock(f, b, g, r, BlockEdge(y, f.height), BlockEdge(x, f.width), true);
    UniformBlock(f, b, g, r, BlockEdge(y, f.height), BlockEdge(x, f.width), false);
  }

  /** Distance of a level from the limited-range level 16 + 0.87 c, in hundredths. */
  function Off(out: byte, c: byte): int {
    100 * out as int - 1600 - 87 * c as int
  }

  /** The encoded bytes, with their rounding errors. */
  lemma {:induction false} Encoded(b: byte, g: byte, r: byte) returns (y: byte, u: byte, v: byte)
    ensures ColourOut(b, g, r) == Pixel(y, u, v)
    ensures Rounded(y as int, LumaOf(b, g, r)) && Rounded(u as int, UOf(b, g, r)) && Rounded(v as int, VOf(b, g, r))
  {
    hide Pixel, RoundDiv, Clamp;
    ComponentRanges(b, g, r);
    y, u, v := Clamp(RoundDiv(LumaOf(b, g, r), 1000)), Clamp(RoundDiv(4 * UOf(b, g, r), 4000)),
      Clamp(RoundDiv(4 * VOf(b, g, r), 4000));
    ClampKeeps(LumaOf(b, g, r), 1000, 0, 255);
    ClampKeeps(4 * UOf(b, g, r), 4000, 0, 255);
    ClampKeeps(4 * VOf(b, g, r), 4000, 0, 255);
  }

  /** n thousandths rounded. */
  predicate Rounded(rounded: int, n: int) {
    -500 <= 1000 * rounded - n <= 500
  }

  lemma {:induction false} ClampKeeps(n: int, d: int, low: int, high: int)
    requires d > 0 && low * d <= n <= high * d && 0 <= low && high <= 255
    ensures Clamp(RoundDiv(n, d)) as int == RoundDiv(n, d)
    ensures -d <= 2 * (Clamp(RoundDiv(n, d)) as int * d) - 2 * n <= d
  {
    RoundBetween(n, d, low, high);
    RoundNearest(n, d);
  }

  /** For each of the 2^24 colours red, green and blue come back in their own places, each within
      seven levels of the limited-range image 16 + 0.87 c of itself. */
  lemma {:induction false} ColourComesBack(b: byte, g: byte, r: byte)
    ensures |ColourOut(b, g, r)| == 4 && ColourOut(b, g, r)[3] == OPAQUE
    ensures -700 <= Off(ColourOut(b, g, r)[0], r) <= 700
    ensures -700 <= Off(ColourOut(b, g, r)[1], g) <= 700
    ensures -700 <= Off(ColourOut(b, g, r)[2], b) <= 700
  {
    hide ColourOut, RoundDiv, Clamp, Off;
    var luma, cb, cr := Encoded(b, g, r);
    var y, du, dv := luma as int, cb as int - 128, cr as int - 128;
    RedError(y, dv, b as int, g as int, r as int);
    GreenError(y, du, dv, b as int, g as int, r as int);
    BlueError(y, du, b as int, g as int, r as int);
    ChannelBack(1000 * y + 1402 * dv, r);
    FineChannelBack(1_000_000 * y - 344_136 * du - 714_136 * dv, g);
    ChannelBack(1000 * y + 1772 * du, b);
  }

  /** A channel in thousandths, off by at most 6.5 before rounding. */
  lemma {:induction false} ChannelBack(n: int, c: byte)
    requires 0 <= n <= 255_000 && -6500 <= n - 16_000 - 870 * c as int <= 6500
    ensures -700 <= Off(Clamp(RoundDiv(n, 1000)), c) <= 700
  {
    ClampKeeps(n, 1000, 0, 255);
  }

  /** The same in millionths. */
  lemma {:induction false} FineChannelBack(n: int, c: byte)
    requires 0 <= n <= 255_000_000 && -6_500_000 <= n - 16_000_000 - 870_000 * c as int <= 6_500_000
    ensures -700 <= Off(Clamp(RoundDiv(n, 1_000_000)), c) <= 700
  {
    ClampKeeps(n, 1_000_000, 0, 255);
  }

  predicate IsLevel(c: int) {
    0 <= c <= 255
  }

  lemma {:induction false} RedError(y: int, dv: int, b: int, g: int, r: int)
    requires IsLevel(b) && IsLevel(g) && IsLevel(r)
    requires Rounded(y, 257 * r + 504 * g + 98 * b + 16_000) && Rounded(dv, 439 * r - 368 * g - 71 * b)
    ensures var n := 1000 * y + 1402 * dv;
      0 <= n <= 255_000 && -6500 <= n - 16_000 - 870 * r <= 6500
  {
  }

  lemma {:induction false} GreenError(y: int, du: int, dv: int, b: int, g: int, r: int)
    requires IsLevel(b) && IsLevel(g) && IsLevel(r)
    requires Rounded(y, 257 * r + 504 * g + 98 * b + 16_000)
    requires Rounded(du, -148 * r - 291 * g + 439 * b) && Rounded(dv, 439 * r - 368 * g - 71 * b)
    ensures var n := 1_000_000 * y - 344_136 * du - 714_136 * dv;
      0 <= n <= 255_000_000 && -6_500_000 <= n - 16_000_000 - 870_000 * g <= 6_500_000
  {
  }

  lemma {:induction false} BlueError(y: int, du: int, b: int, g: int, r: int)
    requires IsLevel(b) && IsLevel(g) && IsLevel(r)
    requires Rounded(y, 257 * r + 504 * g + 98 * b + 16_000) && Rounded(du, -148 * r - 291 * g + 439 * b)
    ensures var n := 1000 * y + 1772 * du;
      0 <= n <= 255_000 && -6500 <= n - 16_000 - 870 * b <= 6500
  {
  }

  /** The gray level a gray level comes back as. */
  function GrayOut(c: byte): int {
    RoundDiv(859 * c as int + 16_000, 1000)
  }

  /** An all-gray frame decodes to an all-gray picture of one level. */
  lemma {:induction false} GrayStaysGray(f: Frame, c: byte, y: nat, x: nat)
    requires ValidFrame(f) && Uniform(f, c, c, c) && y < f.height && x < f.width
    ensures Readable(Nv12Of(f), f.width, f.height)
    ensures 16 <= GrayOut(c) <= 235
    ensures PixelAt(Nv12Of(f), f.width, f.height, y, x) ==
            [GrayOut(c) as byte, GrayOut(c) as byte, GrayOut(c) as byte, OPAQUE]
  {
    hide Nv12Of, PixelAt, Uniform, Pixel;
    UniformStaysUniform(f, c, c, c, y, x);
    GrayEncoded(c);
    GrayPixel(GrayOut(c) as byte);
  }

  lemma {:induction false} GrayEncoded(c: byte)
    ensures 16 <= GrayOut(c) <= 235
    ensures ColourOut(c, c, c) == Pixel(GrayOut(c) as byte, 128, 128)
  {
    assert RoundDiv(512_000, 4000) == 128;
  }

  lemma {:induction false} GrayPixel(luma: byte)
    ensures Pixel(luma, 128, 128) == [luma, luma, luma, OPAQUE]
  {
    assert RoundDiv(1000 * luma as int, 1000) == luma as int;
    assert RoundDiv(1_000_000 * luma as int, 1_000_000) == luma as int;
  }

  /** Brighter gray never comes back darker; but the host writes limited-range levels that the
      viewer does not expand, so a gray level comes back unchanged exactly from 110 to 117. */
  lemma {:induction false} GrayLevels(c: byte, d: byte)
    ensures c <= d ==> GrayOut(c) <= GrayOut(d)
    ensures GrayOut(c) == c as int <==> 110 <= c <= 117
  {
  }
}
