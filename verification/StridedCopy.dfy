/** The viewer's copies out of decoder buffers: rows of a strided image gathered into compact
    pixels. Sizes are 64-bit. */
module StridedCopy {
  import opened Arithmetic
  import opened Bytes

  const USIZE_LIMIT: nat := 0x1_0000_0000_0000_0000

  function CheckedMul(a: nat, b: nat): Option<nat> {
    if a * b < USIZE_LIMIT then Some(a * b) else None
  }

  function CheckedAdd(a: nat, b: nat): Option<nat> {
    if a + b < USIZE_LIMIT then Some(a + b) else None
  }

  /** Bytes the buffer must hold. */
  function Required(rows: nat, rowLen: nat, stride: nat, offset: nat): nat {
    if rows == 0 || rowLen == 0 then 0 else offset + stride * (rows - 1) + rowLen
  }

  /** The same in checked arithmetic: it only overflows when no buffer could be long enough. */
  function CheckedRequired(rows: nat, rowLen: nat, stride: nat, offset: nat): (r: Option<nat>)
    requires rows > 0 && rowLen > 0
    ensures r.Some? ==> r.value == Required(rows, rowLen, stride, offset)
    ensures r.None? ==> Required(rows, rowLen, stride, offset) >= USIZE_LIMIT
  {
    var span := CheckedMul(stride, rows - 1);
    if span.None? then None
    else
      var last := CheckedAdd(span.value, rowLen);
      if last.None? then None else CheckedAdd(offset, last.value)
  }

  function SourceRow(rows: nat, i: nat, topDown: bool): nat
    requires i < rows
  {
    if topDown then i else rows - 1 - i
  }

  lemma {:induction false} RowFits(rows: nat, rowLen: nat, stride: nat, offset: nat, row: nat)
    requires row < rows && rowLen > 0
    ensures offset + row * stride + rowLen <= Required(rows, rowLen, stride, offset)
  {
    assert row * stride <= (rows - 1) * stride;
  }

  /** The bytes of one source row. */
  function RowAt(data: seq<byte>, rows: nat, rowLen: nat, stride: nat, offset: nat, row: nat): (r: seq<byte>)
    requires rowLen > 0 && Required(rows, rowLen, stride, offset) <= |data| && row < rows
    ensures |r| == rowLen
  {
    RowFits(rows, rowLen, stride, offset, row);
    data[offset + row * stride..offset + row * stride + rowLen]
  }

  /** The image rows in output order. */
  function Rows(data: seq<byte>, rows: nat, rowLen: nat, stride: nat, offset: nat, topDown: bool): (r: seq<seq<byte>>)
    requires rowLen > 0 && Required(rows, rowLen, stride, offset) <= |data|
    ensures |r| == rows && Wide(r, rowLen)
  {
    seq(rows, i requires 0 <= i < rows => RowAt(data, rows, rowLen, stride, offset, SourceRow(rows, i, topDown)))
  }

  function Image(data: seq<byte>, rows: nat, rowLen: nat, stride: nat, offset: nat, topDown: bool): Result<seq<byte>> {
    if rows == 0 || rowLen == 0 then Ok([])
    else if |data| < Required(rows, rowLen, stride, offset) then Err
    else Ok(Flatten(Rows(data, rows, rowLen, stride, offset, topDown)))
  }

  /** Succeeds exactly when the buffer holds the required bytes: an overflow of the size
      computation only happens when no buffer could. */
  method CopyStridedRows(data: seq<byte>, rows: nat, rowLen: nat, stride: nat, offset: nat, topDown: bool)
    returns (r: Result<seq<byte>>)
    requires |data| < USIZE_LIMIT
    ensures r == Image(data, rows, rowLen, stride, offset, topDown)
    ensures r.Ok? <==> rows == 0 || rowLen == 0 || offset + stride * (rows - 1) + rowLen <= |data|
  {
    if rows == 0 || rowLen == 0 {
      return Ok([]);
    }
    var required := CheckedRequired(rows, rowLen, stride, offset);
    if required.None? || |data| < required.value {
      return Err;
    }
    var out: seq<byte> := [];
    ghost var all := Rows(data, rows, rowLen, stride, offset, topDown);
    for row := 0 to rows
      invariant out == Flatten(all[..row])
    {
      var sourceRow := if topDown then row else rows - 1 - row;
      FlattenPrefix(all, row);
      out := out + RowAt(data, rows, rowLen, stride, offset, sourceRow);
    }
    assert all[..rows] == all;
    return Ok(out);
  }

  // ---------- What the copy undoes ----------

  /** All rows have this length. */
  predicate Wide(rows: seq<seq<byte>>, width: nat) {
    forall i | 0 <= i < |rows| :: |rows[i]| == width
  }

  lemma {:induction false} FlattenWidth(rows: seq<seq<byte>>, width: nat)
    requires Wide(rows, width)
    ensures |Flatten(rows)| == |rows| * width
  {
    if rows != [] {
      FlattenWidth(rows[1..], width);
      assert |rows| * width == width + (|rows| - 1) * width;
    }
  }

  /** Row i of rows laid out one after the other. */
  lemma {:induction false} FlattenSlice(rows: seq<seq<byte>>, width: nat, i: nat)
    requires Wide(rows, width) && i < |rows|
    ensures i * width + width <= |Flatten(rows)|
    ensures Flatten(rows)[i * width..i * width + width] == rows[i]
  {
    var front, back := rows[..i], rows[i + 1..];
    assert rows == (front + [rows[i]]) + back;
    FlattenAppend(front + [rows[i]], back);
    FlattenSnoc(front, rows[i]);
    FlattenWidth(front, width);
    MiddleSlice(Flatten(front), rows[i], Flatten(back));
  }

  lemma {:induction false} MiddleSlice(a: seq<byte>, b: seq<byte>, c: seq<byte>)
    ensures (a + b + c)[|a|..|a| + |b|] == b
  {
  }

  function Reverse(rows: seq<seq<byte>>): (r: seq<seq<byte>>) {
    seq(|rows|, i requires 0 <= i < |rows| => rows[|rows| - 1 - i])
  }

  /** Each row followed by its own padding bytes. */
  predicate Padded(padded: seq<seq<byte>>, rows: seq<seq<byte>>, width: nat, stride: nat) {
    && |padded| == |rows| && width <= stride && Wide(rows, width) && Wide(padded, stride)
    && forall i | 0 <= i < |rows| :: padded[i][..width] == rows[i]
  }

  /** Padded rows anywhere in a buffer. */
  lemma {:induction false} PaddedRow(front: seq<byte>, padded: seq<seq<byte>>, back: seq<byte>, rows: seq<seq<byte>>,
                                     width: nat, stride: nat, s: nat)
    requires Padded(padded, rows, width, stride) && width > 0 && s < |rows|
    requires Required(|rows|, width, stride, |front|) <= |front + Flatten(padded) + back|
    ensures RowAt(front + Flatten(padded) + back, |rows|, width, stride, |front|, s) == rows[s]
  {
    var data, at := Flatten(padded), s * stride;
    FlattenSlice(padded, stride, s);
    assert data[at..at + stride][..width] == rows[s] && width <= stride;
    RowFits(|rows|, width, stride, |front|, s);
    hide Flatten, Required, Padded;
    SliceHead(data, at, stride, width);
    InnerSlice(front, data, back, at, at + width);
  }

  lemma {:induction false} SliceHead(s: seq<byte>, at: nat, n: nat, m: nat)
    requires m <= n && at + n <= |s|
    ensures s[at..at + n][..m] == s[at..at + m]
  {
  }

  lemma {:induction false} InnerSlice(front: seq<byte>, s: seq<byte>, back: seq<byte>, from: nat, to: nat)
    requires from <= to <= |s|
    ensures (front + s + back)[|front| + from..|front| + to] == s[from..to]
  {
  }

  /** Copying undoes any row padding wherever the rows are, top-down in order and bottom-up in
      reverse. */
  lemma {:induction false} CopyUndoesPadding(front: seq<byte>, padded: seq<seq<byte>>, back: seq<byte>,
                                             rows: seq<seq<byte>>, width: nat, stride: nat, topDown: bool)
    requires Padded(padded, rows, width, stride) && width > 0
    ensures Image(front + Flatten(padded) + back, |rows|, width, stride, |front|, topDown) ==
            Ok(Flatten(if topDown then rows else Reverse(rows)))
  {
    var data, n := front + Flatten(padded) + back, |rows|;
    FlattenWidth(padded, stride);
    if n > 0 {
      assert stride * (n - 1) + width <= n * stride;
      hide Required, RowAt, Flatten, Padded;
      var gathered := Rows(data, n, width, stride, |front|, topDown);
      forall i | 0 <= i < n
        ensures gathered[i] == rows[SourceRow(n, i, topDown)]
      {
        PaddedRow(front, padded, back, rows, width, stride, SourceRow(n, i, topDown));
      }
      assert gathered == if topDown then rows else Reverse(rows);
    } else {
      assert rows == [] && Reverse(rows) == [];
    }
  }

  /** Any successful copy, byte by byte: byte x of output row i comes from source row i, counted from
      the bottom for a bottom-up image. */
  lemma {:induction false} CopiedByte(data: seq<byte>, rows: nat, rowLen: nat, stride: nat, offset: nat,
                                      topDown: bool, i: nat, x: nat, row: nat, from: nat, to: nat)
    requires Image(data, rows, rowLen, stride, offset, topDown).Ok? && i < rows && x < rowLen
    requires row == (if topDown then i else rows - 1 - i) && from == offset + row * stride + x && to == i * rowLen + x
    ensures |Image(data, rows, rowLen, stride, offset, topDown).value| == rows * rowLen
    ensures from < |data| && to < |Image(data, rows, rowLen, stride, offset, topDown).value|
    ensures Image(data, rows, rowLen, stride, offset, topDown).value[to] == data[from]
  {
    hide Required, Rows, Flatten, Wide;
    var all := Rows(data, rows, rowLen, stride, offset, topDown);
    assert Image(data, rows, rowLen, stride, offset, topDown).value == Flatten(all);
    CopiedRow(data, rows, rowLen, stride, offset, topDown, i, row, from - x);
    RowInFlat(all, rowLen, i, x, to);
    assert all[i][x] == data[from];
  }

  lemma {:induction false} CopiedRow(data: seq<byte>, rows: nat, rowLen: nat, stride: nat, offset: nat,
                                     topDown: bool, i: nat, row: nat, at: nat)
    requires rowLen > 0 && Required(rows, rowLen, stride, offset) <= |data| && i < rows
    requires row == SourceRow(rows, i, topDown) && at == offset + row * stride
    ensures at + rowLen <= |data|
    ensures Rows(data, rows, rowLen, stride, offset, topDown)[i] == data[at..at + rowLen]
  {
    RowFits(rows, rowLen, stride, offset, row);
    hide Required;
  }

  lemma {:induction false} RowInFlat(rows: seq<seq<byte>>, width: nat, i: nat, x: nat, to: nat)
    requires Wide(rows, width) && i < |rows| && x < width && to == i * width + x
    ensures |Flatten(rows)| == |rows| * width && to < |Flatten(rows)| && Flatten(rows)[to] == rows[i][x]
  {
    hide Flatten;
    FlattenWidth(rows, width);
    FlattenSlice(rows, width, i);
    ByteOfSlice(Flatten(rows), to - x, to - x + width, x, rows[i]);
  }

  lemma {:induction false} ByteOfSlice(s: seq<byte>, from: nat, to: nat, x: nat, t: seq<byte>)
    requires from <= to <= |s| && s[from..to] == t && x < |t|
    ensures s[from + x] == t[x]
  {
  }

  lemma {:induction false} SameSlices(s: seq<byte>, i: nat, t: seq<byte>, j: nat, n: nat, x: nat)
    requires i + n <= |s| && j + n <= |t| && s[i..i + n] == t[j..j + n] && x < n
    ensures s[i + x] == t[j + x]
  {
    assert s[i..i + n][x] == t[j..j + n][x];
  }

  /** Flipping a bottom-up copy once more gives the top-down copy. */
  lemma {:induction false} FlipTwice(data: seq<byte>, rows: nat, rowLen: nat, stride: nat, offset: nat)
    requires rows > 0 && rowLen > 0 && Required(rows, rowLen, stride, offset) <= |data|
    ensures Image(Image(data, rows, rowLen, stride, offset, false).value, rows, rowLen, rowLen, 0, false) ==
            Image(data, rows, rowLen, stride, offset, true)
  {
    var up := Rows(data, rows, rowLen, stride, offset, false);
    assert Image(data, rows, rowLen, stride, offset, false) == Ok(Flatten(up));
    hide Required, RowAt, Flatten, Image;
    assert forall i | 0 <= i < rows :: up[i][..rowLen] == up[i];
    CopyUndoesPadding([], up, [], up, rowLen, rowLen, false);
    assert [] + Flatten(up) + [] == Flatten(up);
    ReverseOfBottomUp(data, rows, rowLen, stride, offset);
  }

  lemma {:induction false} ReverseOfBottomUp(data: seq<byte>, rows: nat, rowLen: nat, stride: nat, offset: nat)
    requires rows > 0 && rowLen > 0 && Required(rows, rowLen, stride, offset) <= |data|
    ensures Image(data, rows, rowLen, stride, offset, true) ==
            Ok(Flatten(Reverse(Rows(data, rows, rowLen, stride, offset, false))))
  {
    hide Required, RowAt, Flatten;
    var up := Rows(data, rows, rowLen, stride, offset, false);
    var down := Rows(data, rows, rowLen, stride, offset, true);
    forall i | 0 <= i < rows
      ensures Reverse(up)[i] == down[i]
    {
      assert Reverse(up)[i] == up[rows - 1 - i];
      assert SourceRow(rows, rows - 1 - i, false) == SourceRow(rows, i, true) == i;
    }
    assert Reverse(up) == down;
  }

  // ---------- The two formats ----------

  function Max(a: nat, b: nat): nat {
    if a >= b then a else b
  }

  function BgraCopy(data: seq<byte>, width: nat, height: nat, stride: nat, topDown: bool): Result<seq<byte>> {
    Image(data, height, width * 4, Max(stride, width * 4), 0, topDown)
  }

  method CopyStridedBgra(data: seq<byte>, width: nat, height: nat, stride: nat, topDown: bool)
    returns (r: Result<seq<byte>>)
    requires |data| < USIZE_LIMIT && width < U32_LIMIT && height < U32_LIMIT
    ensures r == BgraCopy(data, width, height, stride, topDown)
  {
    var rowLen := CheckedMul(width, 4);
    r := CopyStridedRows(data, height, rowLen.value, Max(stride, rowLen.value), 0, topDown);
  }

  /** The luma plane's rows followed by the chroma plane's, which start after `height` strides. */
  function Nv12Copy(data: seq<byte>, width: nat, height: nat, stride: nat, topDown: bool): Result<seq<byte>> {
    var s := Max(stride, width);
    if width % 2 != 0 || height % 2 != 0 || s * height >= USIZE_LIMIT then Err
    else
      match Image(data, height, width, s, 0, topDown)
      case Err => Err
      case Ok(luma) =>
        match Image(data, height / 2, width, s, s * height, topDown)
        case Err => Err
        case Ok(chroma) => Ok(luma + chroma)
  }

  /** When the two-plane copy succeeds. */
  predicate Nv12Fits(data: seq<byte>, width: nat, height: nat, stride: nat) {
    var s := Max(stride, width);
    && width % 2 == 0 && height % 2 == 0
    && if width == 0 || height == 0 then s * height < USIZE_LIMIT
       else s * height + s * (height / 2 - 1) + width <= |data|
  }

  method CopyStridedNv12(data: seq<byte>, width: nat, height: nat, stride: nat, topDown: bool)
    returns (r: Result<seq<byte>>)
    requires |data| < USIZE_LIMIT && width < U32_LIMIT && height < U32_LIMIT
    ensures r == Nv12Copy(data, width, height, stride, topDown)
    ensures r.Ok? <==> Nv12Fits(data, width, height, stride)
    ensures r.Ok? ==> |r.value| == height * width + height / 2 * width
  {
    if width % 2 != 0 || height % 2 != 0 {
      return Err;
    }
    var s := Max(stride, width);
    AreaFits(width, height);
    var uvOffset := CheckedMul(s, height);
    Nv12Bounds(data, width, height, stride);
    if uvOffset.None? {
      return Err;
    }
    var luma := CopyStridedRows(data, height, width, s, 0, topDown);
    if luma.Err? {
      return Err;
    }
    var chroma := CopyStridedRows(data, height / 2, width, s, uvOffset.value, topDown);
    if chroma.Err? {
      return Err;
    }
    ImageLength(data, height, width, s, 0, topDown);
    ImageLength(data, height / 2, width, s, uvOffset.value, topDown);
    return Ok(luma.value + chroma.value);
  }

  /** Padded luma rows followed by padded chroma rows come out as both planes packed, in order or
      each reversed, whatever follows them in the buffer. */
  lemma {:induction false} Nv12UndoesPadding(paddedLuma: seq<seq<byte>>, luma: seq<seq<byte>>,
                                             paddedChroma: seq<seq<byte>>, chroma: seq<seq<byte>>, back: seq<byte>,
                                             width: nat, stride: nat, topDown: bool)
    requires width > 0 && width % 2 == 0 && |luma| == 2 * |chroma| && stride * |luma| < USIZE_LIMIT
    requires Padded(paddedLuma, luma, width, stride) && Padded(paddedChroma, chroma, width, stride)
    ensures Nv12Copy(Flatten(paddedLuma) + Flatten(paddedChroma) + back, width, |luma|, stride, topDown) ==
            Ok(Flatten(if topDown then luma else Reverse(luma)) + Flatten(if topDown then chroma else Reverse(chroma)))
  {
    var first, second := Flatten(paddedLuma), Flatten(paddedChroma);
    FlattenWidth(paddedLuma, stride);
    assert |first| == stride * |luma|;
    WiderStride(paddedLuma, luma, width, stride);
    CopyUndoesPadding([], paddedLuma, second + back, luma, width, stride, topDown);
    CopyUndoesPadding(first, paddedChroma, back, chroma, width, stride, topDown);
    hide Flatten, Image, Padded, Nv12Copy, Wide;
    Associate([] + first, second, back);
    assert [] + first == first;
    assert |luma| / 2 == |chroma|;
    BothPlanes(first + second + back, width, |luma|, stride, topDown,
               Flatten(if topDown then luma else Reverse(luma)), Flatten(if topDown then chroma else Reverse(chroma)));
  }

  lemma {:induction false} BothPlanes(data: seq<byte>, width: nat, height: nat, stride: nat, topDown: bool,
                                      luma: seq<byte>, chroma: seq<byte>)
    requires width % 2 == 0 && height % 2 == 0 && Max(stride, width) == stride && stride * height < USIZE_LIMIT
    requires Image(data, height, width, stride, 0, topDown) == Ok(luma)
    requires Image(data, height / 2, width, stride, stride * height, topDown) == Ok(chroma)
    ensures Nv12Copy(data, width, height, stride, topDown) == Ok(luma + chroma)
  {
    hide Image;
  }

  lemma {:induction false} WiderStride(padded: seq<seq<byte>>, rows: seq<seq<byte>>, width: nat, stride: nat)
    requires Padded(padded, rows, width, stride)
    ensures Max(stride, width) == stride
  {
  }

  /** The same for a BGRA image of four bytes a pixel. */
  lemma {:induction false} BgraUndoesPadding(padded: seq<seq<byte>>, rows: seq<seq<byte>>, back: seq<byte>, width: nat,
                                             stride: nat, topDown: bool)
    requires width > 0 && Padded(padded, rows, 4 * width, stride)
    ensures BgraCopy(Flatten(padded) + back, width, |rows|, stride, topDown) ==
            Ok(Flatten(if topDown then rows else Reverse(rows)))
  {
    CopyUndoesPadding([], padded, back, rows, 4 * width, stride, topDown);
    assert [] + Flatten(padded) + back == Flatten(padded) + back;
  }

  /** The chroma plane lies after the luma plane, so its bound decides; a buffer that holds it is
      too small for its offset to overflow. */
  lemma {:induction false} Nv12Bounds(data: seq<byte>, width: nat, height: nat, stride: nat)
    requires |data| < USIZE_LIMIT && width % 2 == 0 && height % 2 == 0
    ensures var s := Max(stride, width);
      Nv12Fits(data, width, height, stride)
      <==> s * height < USIZE_LIMIT && Required(height, width, s, 0) <= |data|
           && Required(height / 2, width, s, s * height) <= |data|
  {
    if width > 0 && height > 0 {
      TwoPlanes(width, height, Max(stride, width));
    }
  }

  lemma {:induction false} AreaFits(width: nat, height: nat)
    requires width < U32_LIMIT && height < U32_LIMIT
    ensures width * height < USIZE_LIMIT
  {
    ProductBound(width, height, U32_LIMIT - 1, U32_LIMIT - 1);
  }

  lemma {:induction false} TwoPlanes(width: nat, height: nat, s: nat)
    requires height > 0 && height % 2 == 0 && width <= s
    ensures Required(height, width, s, 0) <= s * height + s * (height / 2 - 1) + width
  {
    assert s * (height - 1) <= s * height;
    assert 0 <= s * (height / 2 - 1);
  }

  lemma {:induction false} ImageLength(data: seq<byte>, rows: nat, rowLen: nat, stride: nat, offset: nat, topDown: bool)
    requires Required(rows, rowLen, stride, offset) <= |data|
    ensures Image(data, rows, rowLen, stride, offset, topDown).Ok?
    ensures |Image(data, rows, rowLen, stride, offset, topDown).value| == rows * rowLen
  {
    if rows == 0 {
      assert 0 * rowLen == 0;
    } else if rowLen != 0 {
      FlattenWidth(Rows(data, rows, rowLen, stride, offset, topDown), rowLen);
    }
  }
}
