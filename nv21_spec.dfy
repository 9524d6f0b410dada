/**
 * What yuv420ToNv21 (CameraFragment.kt) produces, as functions of the image
 * it reads. The output is the luma rows (padding dropped), then the chroma
 * samples as interleaved (V, U) pairs, then whatever of the output array the
 * loops never reach, which Java leaves zero.
 *
 * Products are written with Arith.Mul; Arith.MulIsProduct says Mul(a, b) == a * b.
 */
module Nv21Spec {
  import opened Jvm
  import opened Arith

  /**
   * The image as the converter sees it: the Y bytes from index 0 to the
   * buffer's limit with the cursor at yStart, the U and V bytes, and the
   * strides taken from planes 0 and 1 (plane 1's strides address both
   * chroma planes).
   */
  datatype Yuv = Yuv(width: nat, height: nat,
                     y: seq<byte>, yStart: nat, yRowStride: nat,
                     u: seq<byte>, v: seq<byte>, uvRowStride: nat, uvPixelStride: nat)

  function Zeros(n: nat): (s: seq<byte>)
    ensures |s| == n && forall i :: 0 <= i < n ==> s[i] == 0
  {
    seq(n, _ => 0)
  }

  /** Size of the output: ySize + uvSize with ySize = width*height and uvSize = width*height/2. */
  function Nv21Size(img: Yuv): nat
  {
    Mul(img.width, img.height) + Mul(img.width, img.height) / 2
  }

  // ---- luma ----

  /** The Y buffer's cursor before the (k+1)-th row read: each read takes min(yRowStride, remaining). */
  function ReadPos(img: Yuv, k: nat): (p: nat)
    requires img.yStart <= |img.y|
    ensures img.yStart <= p <= |img.y|
  {
    if k == 0 then img.yStart else Min(|img.y|, ReadPos(img, k - 1) + img.yRowStride)
  }

  /** How many bytes the (k+1)-th row read copies into the scratch row. */
  function RowLength(img: Yuv, k: nat): (n: nat)
    requires img.yStart <= |img.y|
    ensures n <= img.yRowStride && ReadPos(img, k) + n <= |img.y|
  {
    Min(img.yRowStride, |img.y| - ReadPos(img, k))
  }

  /**
   * Byte i of the scratch row yBytes after k row reads: it starts as zero,
   * and each read overwrites only the first RowLength bytes, so a short read
   * leaves the previous row's bytes behind.
   */
  function ScratchByte(img: Yuv, k: nat, i: nat): byte
    requires img.yStart <= |img.y|
  {
    if k == 0 then 0
    else if i < RowLength(img, k - 1) then img.y[ReadPos(img, k - 1) + i]
    else ScratchByte(img, k - 1, i)
  }

  /** The scratch row after k row reads. */
  function Scratch(img: Yuv, k: nat): (s: seq<byte>)
    requires img.yStart <= |img.y|
    ensures |s| == img.yRowStride
  {
    seq(img.yRowStride, i requires 0 <= i => ScratchByte(img, k, i))
  }

  /** arraycopy(yBytes, 0, nv21, pos, width) succeeds on every luma row. */
  predicate LumaCopies(img: Yuv)
  {
    img.height == 0 || img.width <= img.yRowStride
  }

  /** The output's first k luma rows: the first width bytes of the scratch row after each read. */
  function LumaRows(img: Yuv, k: nat): (s: seq<byte>)
    requires img.yStart <= |img.y| && k <= img.height
    requires k == 0 || img.width <= img.yRowStride
    ensures |s| == Mul(k, img.width)
  {
    if k == 0 then [] else LumaRows(img, k - 1) + Scratch(img, k)[..img.width]
  }

  // ---- chroma ----

  /** Index of chroma sample (row, col) in both the U and the V buffer. */
  function ChromaIndex(img: Yuv, row: nat, col: nat): nat
  {
    Mul(row, img.uvRowStride) + Mul(col, img.uvPixelStride)
  }

  /** Both absolute reads of chroma sample (row, col) stay below their buffer's limit. */
  predicate ChromaReadable(img: Yuv, row: nat, col: nat)
  {
    ChromaIndex(img, row, col) < |img.u| && ChromaIndex(img, row, col) < |img.v|
  }

  /** The chroma index grows with the row and the column. */
  lemma ReadableBelow(img: Yuv, row: nat, col: nat, row': nat, col': nat)
    requires row' <= row && col' <= col && ChromaReadable(img, row, col)
    ensures ChromaReadable(img, row', col')
  {
    MulMonotone(row', row, img.uvRowStride, img.uvRowStride);
    MulMonotone(col', col, img.uvPixelStride, img.uvPixelStride);
  }

  /** The first k (V, U) pairs of chroma row `row`. */
  function ChromaRow(img: Yuv, row: nat, k: nat): (s: seq<byte>)
    requires k == 0 || ChromaReadable(img, row, k - 1)
    ensures |s| == 2 * k
  {
    if k == 0 then []
    else
      ReadableBelow(img, row, k - 1, row, if k > 1 then k - 2 else 0);
      var i := ChromaIndex(img, row, k - 1);
      ChromaRow(img, row, k - 1) + [img.v[i], img.u[i]]
  }

  /** Every read of the first k chroma rows stays in bounds (the last one has the largest index). */
  predicate ChromaRowsReadable(img: Yuv, k: nat)
  {
    k == 0 || img.width / 2 == 0 || ChromaReadable(img, k - 1, img.width / 2 - 1)
  }

  /** The first k chroma rows of the output, width/2 pairs each. */
  function ChromaRows(img: Yuv, k: nat): (s: seq<byte>)
    requires ChromaRowsReadable(img, k)
    ensures |s| == 2 * Mul(k, img.width / 2)
  {
    if k == 0 then []
    else
      ReadableRowsBelow(img, k);
      ChromaRows(img, k - 1) + ChromaRow(img, k - 1, img.width / 2)
  }

  /** Chroma rows readable up to k are readable up to k - 1, and row k - 1 is readable to its end. */
  lemma ReadableRowsBelow(img: Yuv, k: nat)
    requires k > 0 && ChromaRowsReadable(img, k)
    ensures ChromaRowsReadable(img, k - 1)
    ensures img.width / 2 == 0 || ChromaReadable(img, k - 1, img.width / 2 - 1)
  {
    if img.width / 2 > 0 && k > 1 {
      ReadableBelow(img, k - 1, img.width / 2 - 1, k - 2, img.width / 2 - 1);
    }
  }

  /** The conversion throws nothing: every luma copy fits and every chroma read is in bounds. */
  predicate Convertible(img: Yuv)
  {
    LumaCopies(img) && ChromaRowsReadable(img, img.height / 2)
  }

  /** The NV21 array the converter returns: luma rows, then (V, U) pairs, then zeros. */
  function Nv21Layout(img: Yuv): (s: seq<byte>)
    requires img.yStart <= |img.y| && Convertible(img)
    ensures |s| == Nv21Size(img)
  {
    HalvesFit(img.width, img.height);
    MulCommutes(img.width, img.height);
    var body := LumaRows(img, img.height) + ChromaRows(img, img.height / 2);
    body + Zeros(Nv21Size(img) - |body|)
  }

  // ---- properties of the layout ----

  /** The output has width*height + width*height/2 bytes. */
  lemma Nv21LayoutLength(img: Yuv)
    requires img.yStart <= |img.y| && Convertible(img)
    ensures |Nv21Layout(img)| == img.width * img.height + img.width * img.height / 2
  {
    MulIsProduct(img.width, img.height);
  }

  /** Conversion succeeds exactly when every copy fits and every one of the (height/2) x (width/2) chroma samples can be read. */
  lemma ConvertibleIffAllReadable(img: Yuv)
    ensures Convertible(img) <==>
      LumaCopies(img) &&
      forall r: nat, c: nat :: r < img.height / 2 && c < img.width / 2 ==> ChromaReadable(img, r, c)
  {
    var h, w := img.height / 2, img.width / 2;
    if ChromaRowsReadable(img, h) {
      forall r: nat, c: nat | r < h && c < w
        ensures ChromaReadable(img, r, c)
      {
        ReadableBelow(img, h - 1, w - 1, r, c);
      }
    }
    if h > 0 && w > 0 && !ChromaRowsReadable(img, h) {
      assert !ChromaReadable(img, h - 1, w - 1);
    }
  }

  /** The cursor after k full-or-short reads: yStart + k*yRowStride, stopped at the limit. */
  lemma {:induction false} ReadPosClosed(img: Yuv, k: nat)
    requires img.yStart <= |img.y|
    ensures ReadPos(img, k) == Min(|img.y|, img.yStart + Mul(k, img.yRowStride))
  {
    if k > 0 {
      ReadPosClosed(img, k - 1);
    }
  }

  /** Byte i of a concatenation's first part. */
  lemma ByteInFirst(a: seq<byte>, b: seq<byte>, i: nat)
    requires i < |a|
    ensures i < |a + b| && (a + b)[i] == a[i]
  {
  }

  /** Byte c of luma row r of the output is byte c of the scratch row after the (r+1)-th read. */
  lemma {:induction false} LumaRowsAt(img: Yuv, k: nat, r: nat, c: nat)
    requires img.yStart <= |img.y| && k <= img.height && img.width <= img.yRowStride
    requires r < k && c < img.width
    ensures Mul(r, img.width) + c < Mul(k, img.width)
    ensures LumaRows(img, k)[Mul(r, img.width) + c] == ScratchByte(img, r + 1, c)
  {
    var w, i := img.width, Mul(r, img.width) + c;
    CellBefore(r, c, k, w);
    var prev, row := LumaRows(img, k - 1), Scratch(img, k)[..w];
    assert LumaRows(img, k) == prev + row;
    if r < k - 1 {
      LumaRowsAt(img, k - 1, r, c);
      ByteInFirst(prev, row, i);
    } else {
      assert (prev + row)[i] == row[c];
    }
  }

  /** Byte i of the layout, within the luma rows, is byte i of the luma rows. */
  lemma LayoutLumaAt(img: Yuv, i: nat)
    requires img.yStart <= |img.y| && Convertible(img) && i < Mul(img.height, img.width)
    ensures i < |Nv21Layout(img)| && Nv21Layout(img)[i] == LumaRows(img, img.height)[i]
  {
    var luma, chroma := LumaRows(img, img.height), ChromaRows(img, img.height / 2);
    HalvesFit(img.width, img.height);
    MulCommutes(img.width, img.height);
    ByteInFirst(luma, chroma, i);
    ByteInFirst(luma + chroma, Zeros(Nv21Size(img) - |luma + chroma|), i);
  }

  /** Read k + 1 puts the Y byte at yStart + k*yRowStride + c into scratch byte c when it lies below the limit, and leaves the byte alone otherwise. */
  lemma ScratchByteAt(img: Yuv, k: nat, c: nat)
    requires img.yStart <= |img.y| && c < img.yRowStride
    ensures ScratchByte(img, k + 1, c) ==
      if img.yStart + Mul(k, img.yRowStride) + c < |img.y| then img.y[img.yStart + Mul(k, img.yRowStride) + c]
      else ScratchByte(img, k, c)
  {
    ReadPosClosed(img, k);
  }

  /**
   * Byte c of luma row r is the Y byte at yStart + r*yRowStride + c when
   * that index is below the Y buffer's limit; past the limit the short read
   * left the scratch row as it was, so the byte repeats row r-1's (zero for
   * row 0).
   */
  lemma LumaByte(img: Yuv, r: nat, c: nat)
    requires img.yStart <= |img.y| && Convertible(img)
    requires r < img.height && c < img.width
    ensures Mul(r, img.width) + c < |Nv21Layout(img)|
    ensures Nv21Layout(img)[Mul(r, img.width) + c] ==
      if img.yStart + Mul(r, img.yRowStride) + c < |img.y| then img.y[img.yStart + Mul(r, img.yRowStride) + c]
      else if r == 0 then 0
      else Nv21Layout(img)[Mul(r - 1, img.width) + c]
  {
    var w, h := img.width, img.height;
    LumaRowsAt(img, h, r, c);
    LayoutLumaAt(img, Mul(r, w) + c);
    ScratchByteAt(img, r, c);
    if r > 0 {
      LumaRowsAt(img, h, r - 1, c);
      LayoutLumaAt(img, Mul(r - 1, w) + c);
    }
  }

  /** Bytes i and i + 1 of s are the pair (first, second). */
  predicate PairAt(s: seq<byte>, i: nat, first: byte, second: byte)
  {
    i + 1 < |s| && s[i] == first && s[i + 1] == second
  }

  /** Pair c of the chroma row holds (V, U) read at ChromaIndex(row, c). */
  lemma {:induction false} ChromaRowAt(img: Yuv, row: nat, k: nat, c: nat)
    requires c < k && ChromaReadable(img, row, k - 1)
    ensures ChromaReadable(img, row, c)
    ensures PairAt(ChromaRow(img, row, k), 2 * c, img.v[ChromaIndex(img, row, c)], img.u[ChromaIndex(img, row, c)])
  {
    ReadableBelow(img, row, k - 1, row, c);
    if c < k - 1 {
      ChromaRowAt(img, row, k - 1, c);
    }
  }

  /** Bytes of a concatenation's second part. */
  lemma PairInSecond(a: seq<byte>, b: seq<byte>, i: nat, first: byte, second: byte)
    requires PairAt(b, i, first, second)
    ensures PairAt(a + b, |a| + i, first, second)
  {
  }

  /** Bytes of a concatenation's first part. */
  lemma PairInFirst(a: seq<byte>, b: seq<byte>, i: nat, first: byte, second: byte)
    requires PairAt(a, i, first, second)
    ensures PairAt(a + b, i, first, second)
  {
  }

  /** Pair (r, c) of the first k chroma rows sits at 2*(r*(width/2) + c). */
  lemma {:induction false} ChromaRowsAt(img: Yuv, k: nat, r: nat, c: nat)
    requires ChromaRowsReadable(img, k) && r < k && c < img.width / 2
    ensures ChromaReadable(img, r, c)
    ensures PairAt(ChromaRows(img, k), 2 * (Mul(r, img.width / 2) + c), img.v[ChromaIndex(img, r, c)], img.u[ChromaIndex(img, r, c)])
  {
    var half := img.width / 2;
    ReadableBelow(img, k - 1, half - 1, r, c);
    CellBefore(r, c, k, half);
    ReadableRowsBelow(img, k);
    var prev, row := ChromaRows(img, k - 1), ChromaRow(img, k - 1, half);
    assert ChromaRows(img, k) == prev + row;
    var vb, ub := img.v[ChromaIndex(img, r, c)], img.u[ChromaIndex(img, r, c)];
    if r < k - 1 {
      ChromaRowsAt(img, k - 1, r, c);
      PairInFirst(prev, row, 2 * (Mul(r, half) + c), vb, ub);
    } else {
      ChromaRowAt(img, r, half, c);
      PairInSecond(prev, row, 2 * c, vb, ub);
    }
  }

  /**
   * Chroma pair (r, c) of the output, at ySize + 2*(r*(width/2) + c), is the
   * V sample then the U sample at r*uvRowStride + c*uvPixelStride.
   */
  lemma ChromaPair(img: Yuv, r: nat, c: nat)
    requires img.yStart <= |img.y| && Convertible(img)
    requires r < img.height / 2 && c < img.width / 2
    ensures ChromaReadable(img, r, c)
    ensures PairAt(Nv21Layout(img), Mul(img.width, img.height) + 2 * (Mul(r, img.width / 2) + c),
                   img.v[ChromaIndex(img, r, c)], img.u[ChromaIndex(img, r, c)])
  {
    var w, h := img.width, img.height;
    ChromaRowsAt(img, h / 2, r, c);
    MulCommutes(w, h);
    HalvesFit(w, h);
    var luma, chroma := LumaRows(img, h), ChromaRows(img, h / 2);
    var vb, ub := img.v[ChromaIndex(img, r, c)], img.u[ChromaIndex(img, r, c)];
    PairInSecond(luma, chroma, 2 * (Mul(r, w / 2) + c), vb, ub);
    PairInFirst(luma + chroma, Zeros(Nv21Size(img) - |luma + chroma|), Mul(w, h) + 2 * (Mul(r, w / 2) + c), vb, ub);
  }

  /** Past the luma rows and the (height/2) x (width/2) pairs the output stays zero. */
  lemma TailIsZero(img: Yuv, i: nat)
    requires img.yStart <= |img.y| && Convertible(img)
    requires Mul(img.width, img.height) + 2 * Mul(img.height / 2, img.width / 2) <= i < |Nv21Layout(img)|
    ensures Nv21Layout(img)[i] == 0
  {
    MulCommutes(img.width, img.height);
  }

  /** With even width and height the pairs fill the output: there is no zero tail. */
  lemma EvenSizeFillsOutput(img: Yuv)
    requires img.yStart <= |img.y| && Convertible(img)
    requires img.width % 2 == 0 && img.height % 2 == 0
    ensures Mul(img.width, img.height) + 2 * Mul(img.height / 2, img.width / 2) == |Nv21Layout(img)|
  {
    HalvesFit(img.width, img.height);
  }

  // ---- the same properties over the products the source writes ----

  /** With even width and height the (V, U) pairs fill exactly the uvSize bytes after the luma rows. */
  lemma EvenChromaFillsTail(img: Yuv)
    requires img.yStart <= |img.y| && Convertible(img)
    requires img.width % 2 == 0 && img.height % 2 == 0
    ensures 2 * ((img.height / 2) * (img.width / 2)) == img.width * img.height / 2
    ensures img.width * img.height + 2 * ((img.height / 2) * (img.width / 2)) == |Nv21Layout(img)|
  {
    EvenSizeFillsOutput(img);
    MulIsProduct(img.height / 2, img.width / 2);
    MulIsProduct(img.width, img.height);
  }

  /**
   * When the Y buffer holds (height-1)*yRowStride + width bytes past the
   * cursor, output byte k = r*width + c of luma row r is Y byte
   * i = yStart + r*yRowStride + c: the row padding is dropped.
   */
  lemma LumaDropsPadding(img: Yuv, r: nat, c: nat, k: nat, i: nat)
    requires img.yStart <= |img.y| && Convertible(img)
    requires r < img.height && c < img.width
    requires img.yStart + (img.height - 1) * img.yRowStride + img.width <= |img.y|
    requires k == r * img.width + c && i == img.yStart + r * img.yRowStride + c
    ensures k < |Nv21Layout(img)| && i < |img.y|
    ensures Nv21Layout(img)[k] == img.y[i]
  {
    MulIsProduct(r, img.width);
    MulIsProduct(r, img.yRowStride);
    MulIsProduct(img.height - 1, img.yRowStride);
    MulMonotone(r, img.height - 1, img.yRowStride, img.yRowStride);
    LumaByte(img, r, c);
  }

  /**
   * For r < height/2 and c < width/2, output bytes k = width*height +
   * 2*(r*(width/2) + c) and k + 1 are the V and the U sample at
   * i = r*uvRowStride + c*uvPixelStride: V first, both planes addressed
   * with plane 1's strides.
   */
  lemma ChromaVThenU(img: Yuv, r: nat, c: nat, k: nat, i: nat)
    requires img.yStart <= |img.y| && Convertible(img)
    requires r < img.height / 2 && c < img.width / 2
    requires k == img.width * img.height + 2 * (r * (img.width / 2) + c)
    requires i == r * img.uvRowStride + c * img.uvPixelStride
    ensures i < |img.u| && i < |img.v| && k + 1 < |Nv21Layout(img)|
    ensures Nv21Layout(img)[k] == img.v[i] && Nv21Layout(img)[k + 1] == img.u[i]
  {
    ChromaPair(img, r, c);
    MulIsProduct(img.width, img.height);
    MulIsProduct(r, img.width / 2);
    MulIsProduct(r, img.uvRowStride);
    MulIsProduct(c, img.uvPixelStride);
  }

  /** When the last chroma sample's index is in bounds, every chroma read is. */
  lemma ChromaReadsInBounds(img: Yuv, r: nat, c: nat)
    requires r < img.height / 2 && c < img.width / 2
    requires (img.height / 2 - 1) * img.uvRowStride + (img.width / 2 - 1) * img.uvPixelStride < |img.u|
    requires (img.height / 2 - 1) * img.uvRowStride + (img.width / 2 - 1) * img.uvPixelStride < |img.v|
    ensures r * img.uvRowStride + c * img.uvPixelStride < |img.u|
    ensures r * img.uvRowStride + c * img.uvPixelStride < |img.v|
  {
    var h, w := img.height / 2 - 1, img.width / 2 - 1;
    MulIsProduct(h, img.uvRowStride);
    MulIsProduct(w, img.uvPixelStride);
    ReadableBelow(img, h, w, r, c);
    MulIsProduct(r, img.uvRowStride);
    MulIsProduct(c, img.uvPixelStride);
  }
}
