/**
 * yuv420ToNv21 (CameraFragment.kt): converts a three-plane YUV_420_888
 * image into one NV21 byte array. The luma plane is copied row by row
 * through a reused scratch row of yRowStride bytes, dropping the row
 * padding; then the chroma samples are written as interleaved (V, U)
 * pairs, both planes addressed with plane 1's row and pixel strides.
 * What the result is, byte by byte, is stated in module Nv21Spec.
 */
module Nv21 {
  import opened Wrappers
  import opened Jvm
  import opened Arith
  import opened Nv21Spec

  /** One image plane: its buffer and its strides. */
  datatype Plane = Plane(buffer: ByteBuffer, rowStride: nat, pixelStride: nat)

  /** An acquired camera image: its size, its three planes, and how often it was closed. */
  class Image {
    const width: nat
    const height: nat
    const y: Plane
    const u: Plane
    const v: Plane
    var closeCount: nat

    ghost predicate Valid()
      reads this, y.buffer
    {
      y.buffer.Valid()
    }

    constructor (width: nat, height: nat, y: Plane, u: Plane, v: Plane)
      requires y.buffer.Valid()
      ensures Valid() && closeCount == 0
      ensures this.width == width && this.height == height
      ensures this.y == y && this.u == u && this.v == v
    {
      this.width, this.height := width, height;
      this.y, this.u, this.v := y, u, v;
      closeCount := 0;
    }

    /** What the converter reads from the image; plane 2's own strides are never read. */
    ghost function View(): Yuv
      reads this, y.buffer
      requires Valid()
    {
      Yuv(width, height, y.buffer.data, y.buffer.position, y.rowStride,
          u.buffer.data, v.buffer.data, u.rowStride, u.pixelStride)
    }

    /** image.close(): releases the image back to the reader. */
    method Close()
      modifies this`closeCount
      ensures closeCount == old(closeCount) + 1
    {
      closeCount := closeCount + 1;
    }
  }

  /**
   * yuv420ToNv21. Returns None exactly when the source throws: arraycopy
   * when width exceeds yRowStride, or an absolute get past a chroma
   * buffer's limit. Advances the Y buffer's cursor as the source does.
   */
  method Yuv420ToNv21(image: Image) returns (nv21: Option<array<byte>>)
    requires image.Valid()
    modifies image.y.buffer
    ensures image.Valid()
    ensures nv21.Some? <==> Convertible(old(image.View()))
    ensures nv21.Some? ==> fresh(nv21.value) && nv21.value[..] == Nv21Layout(old(image.View()))
    ensures nv21.Some? ==> image.y.buffer.position == ReadPos(old(image.View()), image.height)
  {
    ghost var view := image.View();
    var width, height := image.width, image.height;
    var ySize := Multiply(width, height);
    var uvSize := ySize / 2;
    var out := new byte[ySize + uvSize](_ => 0);

    assert out[..] == Zeros(out.Length);
    MulCommutes(width, height);
    var lumaOk, pos := CopyLuma(view, image.y.buffer, image.y.rowStride, width, height, out);
    if !lumaOk {
      return None;
    }
    var chromaOk;
    chromaOk, pos := InterleaveChroma(view, image.u.buffer, image.v.buffer,
                                      image.u.rowStride, image.u.pixelStride, width, height, out, pos);
    if !chromaOk {
      return None;
    }
    assert out[..] == out[..pos] + out[pos..];
    assert out[pos..] == Zeros(out.Length - pos);
    return Some(out);
  }

  /**
   * State of the luma loop after `row` rows: the Y cursor, the scratch row,
   * the copied prefix of the output and its untouched zero tail.
   */
  ghost predicate LumaProgress(view: Yuv, row: nat, pos: nat, position: nat, scratch: seq<byte>, out: seq<byte>)
  {
    && view.yStart <= |view.y| && row <= view.height
    && (row > 0 ==> view.width <= view.yRowStride)
    && position == ReadPos(view, row) && scratch == Scratch(view, row)
    && pos <= |out| && out[..pos] == LumaRows(view, row) && out[pos..] == Zeros(|out| - pos)
  }

  /** The luma loop: copies `height` luma rows through a reused scratch row of yRowStride bytes. */
  method CopyLuma(ghost view: Yuv, yBuffer: ByteBuffer, yRowStride: nat, width: nat, height: nat, out: array<byte>)
    returns (ok: bool, pos: nat)
    requires yBuffer.Valid() && yBuffer.data == view.y && yBuffer.position == view.yStart
    requires view.yRowStride == yRowStride && view.width == width && view.height == height
    requires Mul(height, width) <= out.Length
    requires out[..] == Zeros(out.Length)
    modifies yBuffer, out
    ensures yBuffer.Valid()
    ensures ok <==> LumaCopies(view)
    ensures ok ==> pos <= out.Length && out[..pos] == LumaRows(view, height)
    ensures ok ==> out[pos..] == Zeros(out.Length - pos)
    ensures ok ==> yBuffer.position == ReadPos(view, height)
  {
    pos := 0;
    var yBytes := new byte[yRowStride](_ => 0);
    var row := 0;
    assert yBytes[..] == Scratch(view, 0);
    while row < height
      invariant yBuffer.Valid() && yBuffer.data == view.y && yBytes.Length == yRowStride
      invariant LumaProgress(view, row, pos, yBuffer.position, yBytes[..], out[..])
    {
      RowBefore(row, height, width);
      var copied := CopyLumaRow(view, yBuffer, yBytes, out, width, row, pos);
      if !copied {
        return false, pos;
      }
      pos := pos + width;
      row := row + 1;
    }
    return true, pos;
  }

  /** One iteration of the luma loop: a bulk read of min(yRowStride, remaining) bytes, then arraycopy of `width` bytes. */
  method CopyLumaRow(ghost view: Yuv, yBuffer: ByteBuffer, yBytes: array<byte>, out: array<byte>, width: nat, row: nat, pos: nat)
    returns (copied: bool)
    requires yBuffer.Valid() && yBuffer.data == view.y && yBytes != out && yBytes.Length == view.yRowStride
    requires width == view.width && row < view.height && Mul(row + 1, width) == Mul(row, width) + width <= out.Length
    requires LumaProgress(view, row, pos, yBuffer.position, yBytes[..], out[..])
    modifies yBuffer, yBytes, out
    ensures yBuffer.Valid() && yBuffer.data == view.y
    ensures copied <==> width <= view.yRowStride
    ensures copied ==> LumaProgress(view, row + 1, pos + width, yBuffer.position, yBytes[..], out[..])
  {
    var n := Min(yBytes.Length, yBuffer.Remaining());
    assert n == RowLength(view, row);
    ghost var prev := yBytes[..];
    yBuffer.Get(yBytes, 0, n);
    ScratchStep(view, row, prev, yBytes[..]);
    ghost var before := out[..];
    assert pos == Mul(row, width);
    copied := ArrayCopy(yBytes, 0, out, pos, width);
    if copied {
      LumaRowCopied(view, row, pos, yBuffer.position, yBytes[..], before, out[..]);
    }
  }

  /** After the bulk read and the arraycopy of row `row`, the luma loop's state has advanced by one row. */
  lemma LumaRowCopied(view: Yuv, row: nat, pos: nat, position: nat, scratch: seq<byte>, before: seq<byte>, after: seq<byte>)
    requires view.yStart <= |view.y| && row < view.height && view.width <= view.yRowStride == |scratch|
    requires position == ReadPos(view, row + 1) && scratch == Scratch(view, row + 1)
    requires pos == Mul(row, view.width) && Mul(row + 1, view.width) == pos + view.width <= |before| == |after|
    requires before[..pos] == LumaRows(view, row) && before[pos..] == Zeros(|before| - pos)
    requires after[..pos] == before[..pos]
    requires after[pos..pos + view.width] == scratch[..view.width]
    requires after[pos + view.width..] == before[pos + view.width..]
    ensures LumaProgress(view, row + 1, pos + view.width, position, scratch, after)
  {
    StepRow(after, before, pos, view.width, LumaRows(view, row), scratch);
  }

  /** One bulk read of RowLength bytes turns Scratch(k) into Scratch(k + 1) and moves the cursor to ReadPos(k + 1). */
  lemma ScratchStep(img: Yuv, k: nat, prev: seq<byte>, next: seq<byte>)
    requires img.yStart <= |img.y| && prev == Scratch(img, k) && |next| == |prev|
    requires next[..0] == prev[..0]
    requires next[0..RowLength(img, k)] == img.y[ReadPos(img, k)..ReadPos(img, k) + RowLength(img, k)]
    requires next[RowLength(img, k)..] == prev[RowLength(img, k)..]
    ensures next == Scratch(img, k + 1)
    ensures ReadPos(img, k + 1) == ReadPos(img, k) + RowLength(img, k)
  {
    var n, p := RowLength(img, k), ReadPos(img, k);
    forall i | 0 <= i < |next|
      ensures next[i] == Scratch(img, k + 1)[i]
    {
      if i < n {
        assert next[i] == next[0..n][i] == img.y[p + i];
      } else {
        assert next[i] == next[n..][i - n] == prev[i];
      }
    }
  }

  /** One arraycopy of `width` scratch bytes extends the copied prefix and keeps the zero tail. */
  lemma StepRow(after: seq<byte>, before: seq<byte>, pos: nat, width: nat, done: seq<byte>, scratch: seq<byte>)
    requires pos + width <= |before| == |after| && width <= |scratch|
    requires before[..pos] == done && before[pos..] == Zeros(|before| - pos)
    requires after[..pos] == before[..pos]
    requires after[pos..pos + width] == scratch[..width]
    requires after[pos + width..] == before[pos + width..]
    ensures after[..pos + width] == done + scratch[..width]
    ensures after[pos + width..] == Zeros(|after| - pos - width)
  {
    assert after[..pos + width] == after[..pos] + after[pos..pos + width];
    assert before[pos + width..] == before[pos..][width..];
  }

  /**
   * State of the chroma loops before pair (row, col): every earlier read
   * was in bounds, the output holds the luma rows and the pairs so far,
   * and the rest of it is still zero.
   */
  ghost predicate ChromaProgress(view: Yuv, row: nat, col: nat, pos: nat, out: seq<byte>)
  {
    && view.yStart <= |view.y| && LumaCopies(view)
    && row <= view.height / 2 && col <= view.width / 2 && (row == view.height / 2 ==> col == 0)
    && ChromaRowsReadable(view, row) && (col == 0 || ChromaReadable(view, row, col - 1))
    && pos <= |out|
    && out[..pos] == LumaRows(view, view.height) + ChromaRows(view, row) + ChromaRow(view, row, col)
    && out[pos..] == Zeros(|out| - pos)
  }

  /** The chroma loops: write the (V, U) pairs of every chroma row after the luma rows. */
  method InterleaveChroma(ghost view: Yuv, uBuffer: ByteBuffer, vBuffer: ByteBuffer,
                          uvRowStride: nat, uvPixelStride: nat, width: nat, height: nat,
                          out: array<byte>, start: nat)
    returns (ok: bool, pos: nat)
    requires view.yStart <= |view.y| && LumaCopies(view)
    requires uBuffer.data == view.u && vBuffer.data == view.v
    requires view.uvRowStride == uvRowStride && view.uvPixelStride == uvPixelStride
    requires view.width == width && view.height == height
    requires out.Length == Nv21Size(view)
    requires start <= out.Length && out[..start] == LumaRows(view, height)
    requires out[start..] == Zeros(out.Length - start)
    modifies out
    ensures ok <==> ChromaRowsReadable(view, height / 2)
    ensures ok ==> pos <= out.Length
    ensures ok ==> out[..pos] == LumaRows(view, height) + ChromaRows(view, height / 2)
    ensures ok ==> out[pos..] == Zeros(out.Length - pos)
  {
    var uvHeight := height / 2;
    var uvWidth := width / 2;
    pos := start;
    var row := 0;
    assert out[..pos] == LumaRows(view, height) + ChromaRows(view, 0) + ChromaRow(view, 0, 0);
    while row < uvHeight
      invariant ChromaProgress(view, row, 0, pos, out[..])
    {
      ok, pos := InterleaveRow(view, uBuffer, vBuffer, uvRowStride, uvPixelStride, uvWidth, out, row, pos);
      if !ok {
        return;
      }
      NextChromaRow(view, row, pos, out[..]);
      row := row + 1;
    }
    return true, pos;
  }

  /** The inner chroma loop: the (V, U) pairs of chroma row `row`. */
  method InterleaveRow(ghost view: Yuv, uBuffer: ByteBuffer, vBuffer: ByteBuffer,
                       uvRowStride: nat, uvPixelStride: nat, uvWidth: nat,
                       out: array<byte>, row: nat, start: nat)
    returns (ok: bool, pos: nat)
    requires uBuffer.data == view.u && vBuffer.data == view.v
    requires view.uvRowStride == uvRowStride && view.uvPixelStride == uvPixelStride
    requires uvWidth == view.width / 2 && row < view.height / 2 && out.Length == Nv21Size(view)
    requires ChromaProgress(view, row, 0, start, out[..])
    modifies out
    ensures !ok ==> !ChromaRowsReadable(view, view.height / 2)
    ensures ok ==> ChromaProgress(view, row, uvWidth, pos, out[..])
  {
    pos := start;
    var col := 0;
    while col < uvWidth
      invariant ChromaProgress(view, row, col, pos, out[..])
    {
      PairFits(view, row, col, pos, out[..]);
      ok := WritePair(view, uBuffer, vBuffer, uvRowStride, uvPixelStride, out, row, col, pos);
      if !ok {
        ReadableBelowFails(view, row, col);
        return;
      }
      pos := pos + 2;
      col := col + 1;
    }
    return true, pos;
  }

  /** One iteration of the inner chroma loop: nv21[pos++] = V sample, nv21[pos++] = U sample. */
  method WritePair(ghost view: Yuv, uBuffer: ByteBuffer, vBuffer: ByteBuffer,
                   uvRowStride: nat, uvPixelStride: nat, out: array<byte>, row: nat, col: nat, pos: nat)
    returns (ok: bool)
    requires uBuffer.data == view.u && vBuffer.data == view.v
    requires view.uvRowStride == uvRowStride && view.uvPixelStride == uvPixelStride
    requires row < view.height / 2 && col < view.width / 2 && pos + 2 <= out.Length
    requires ChromaProgress(view, row, col, pos, out[..])
    modifies out
    ensures ok <==> ChromaReadable(view, row, col)
    ensures ok ==> ChromaProgress(view, row, col + 1, pos + 2, out[..])
  {
    ghost var before := out[..];
    var rowOffset := Multiply(row, uvRowStride);
    var colOffset := Multiply(col, uvPixelStride);
    var index := rowOffset + colOffset;
    var vSample := vBuffer.At(index);
    if vSample.None? {
      return false;
    }
    out[pos] := vSample.value;
    var uSample := uBuffer.At(index);
    if uSample.None? {
      return false;
    }
    out[pos + 1] := uSample.value;
    PairStep(view, row, col, pos, before, out[..]);
    return true;
  }

  /** Writing the (V, U) pair read at ChromaIndex(row, col) at pos moves the chroma loop one pair on. */
  lemma PairStep(view: Yuv, row: nat, col: nat, pos: nat, before: seq<byte>, after: seq<byte>)
    requires ChromaProgress(view, row, col, pos, before)
    requires row < view.height / 2 && col < view.width / 2 && ChromaReadable(view, row, col)
    requires pos + 2 <= |before| == |after|
    requires after == before[pos := view.v[ChromaIndex(view, row, col)]][pos + 1 := view.u[ChromaIndex(view, row, col)]]
    ensures ChromaProgress(view, row, col + 1, pos + 2, after)
  {
    var i := ChromaIndex(view, row, col);
    assert after[..pos + 2] == before[..pos] + [view.v[i], view.u[i]];
    assert after[pos + 2..] == before[pos..][2..];
  }

  /** Output length arithmetic: the pair at (row, col) ends before the output does. */
  lemma PairFits(view: Yuv, row: nat, col: nat, pos: nat, out: seq<byte>)
    requires ChromaProgress(view, row, col, pos, out)
    requires row < view.height / 2 && col < view.width / 2 && |out| == Nv21Size(view)
    ensures pos + 2 <= |out|
  {
    var w, h := view.width, view.height;
    assert pos == Mul(h, w) + 2 * Mul(row, w / 2) + 2 * col;
    CellBefore(row, col, h / 2, w / 2);
    HalvesFit(w, h);
    MulCommutes(h, w);
  }

  /** After the last pair of a row the next row starts with nothing of its own written. */
  lemma NextChromaRow(view: Yuv, row: nat, pos: nat, out: seq<byte>)
    requires row < view.height / 2 && ChromaProgress(view, row, view.width / 2, pos, out)
    ensures ChromaProgress(view, row + 1, 0, pos, out)
  {
    assert ChromaRows(view, row + 1) == ChromaRows(view, row) + ChromaRow(view, row, view.width / 2);
  }

  /** A failed read at (row, col) means the last sample is out of bounds too. */
  lemma ReadableBelowFails(img: Yuv, row: nat, col: nat)
    requires row < img.height / 2 && col < img.width / 2 && !ChromaReadable(img, row, col)
    ensures !ChromaRowsReadable(img, img.height / 2)
  {
    if ChromaReadable(img, img.height / 2 - 1, img.width / 2 - 1) {
      ReadableBelow(img, img.height / 2 - 1, img.width / 2 - 1, row, col);
    }
  }
}
