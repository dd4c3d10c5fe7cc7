/**
 * The two pixel-marshalling loops of the application component: an RGBA
 * frame into planar float tensor data of shape [1, 3, height, width], and
 * planar tensor data back into RGBA bytes. Their only callers are in the
 * component's `styleTransfer` method, which nothing invokes; the live frame
 * loop hands its tensors to TensorFlow.js instead. The tensor's float
 * values are modelled as integers (see README).
 */
module Marshal {
  import opened Bytes
  import opened Layout

  /** Row `y` of a `height` by `width` image spans pixels `y * width` up to `(y + 1) * width`, inside the image. */
  lemma RowSpan(y: nat, height: nat, width: nat)
    requires y < height
    ensures (y + 1) * width == y * width + width <= height * width
  {
  }

  /**
   * The tensor data while imageDataToTensor runs: a zero-filled buffer of
   * `3n` values whose first `k` pixels have been copied into the three
   * planes.
   */
  ghost function TensorPrefix(src: seq<int>, n: nat, k: nat): (t: seq<int>)
    requires |src| == 4 * n && k <= n
    ensures |t| == 3 * n
  {
    seq(3 * n, i requires 0 <= i < 3 * n =>
      if i < n then (if i < k then src[4 * i] else 0)
      else if i < 2 * n then (if i - n < k then src[4 * (i - n) + 1] else 0)
      else (if i - 2 * n < k then src[4 * (i - 2 * n) + 2] else 0))
  }

  lemma TensorPrefixStep(src: seq<int>, n: nat, k: nat)
    requires |src| == 4 * n && k < n
    ensures TensorPrefix(src, n, k + 1)
         == TensorPrefix(src, n, k)[k := src[4 * k]][n + k := src[4 * k + 1]][2 * n + k := src[4 * k + 2]]
  {
  }

  lemma TensorPrefixDone(src: seq<int>, n: nat)
    requires |src| == 4 * n
    ensures TensorPrefix(src, n, n) == Planes(Pixels(src))
  {
    TensorFromImageData(TensorPrefix(src, n, n), src, n);
  }

  /**
   * imageDataToTensor on an already-resized frame: walks the RGBA bytes
   * pixel by pixel, row by row, and writes each pixel's red, green and blue
   * into three planes of `height * width` values, dropping alpha. The
   * division by `norm = 1.0` leaves every value as it is.
   */
  method ImageDataToTensor(src: array<Byte>, height: nat, width: nat) returns (outData: array<int>, dims: seq<nat>)
    requires src.Length == 4 * (height * width)
    ensures fresh(outData)
    ensures dims == [1, 3, height, width]
    ensures outData.Length == dims[0] * dims[1] * (dims[2] * dims[3])
    ensures outData[..] == Planes(Pixels(src[..]))
  {
    var n, c := 1, 3;
    ghost var size := height * width;
    outData := new int[n * c * (height * width)](_ => 0);
    ghost var bytes := src[..];
    assert outData[..] == TensorPrefix(bytes, size, 0);

    var srcIdx := 0;
    var outIdxR := 0;
    var outIdxG := outIdxR + height * width;
    var outIdxB := outIdxG + height * width;

    var y := 0;
    while y < height
      invariant 0 <= y <= height
      invariant outIdxR == y * width <= size
      invariant srcIdx == 4 * outIdxR
      invariant outIdxG == size + outIdxR && outIdxB == 2 * size + outIdxR
      invariant outData[..] == TensorPrefix(bytes, size, outIdxR)
    {
      RowSpan(y, height, width);
      ghost var rowStart := outIdxR;
      var x := 0;
      while x < width
        invariant 0 <= x <= width
        invariant outIdxR == rowStart + x
        invariant srcIdx == 4 * outIdxR
        invariant outIdxG == size + outIdxR && outIdxB == 2 * size + outIdxR
        invariant outData[..] == TensorPrefix(bytes, size, outIdxR)
      {
        TensorPrefixStep(bytes, size, outIdxR);
        var srcR := src[srcIdx];
        srcIdx := srcIdx + 1;
        var srcG := src[srcIdx];
        srcIdx := srcIdx + 1;
        var srcB := src[srcIdx];
        srcIdx := srcIdx + 1;
        srcIdx := srcIdx + 1;

        outData[outIdxR] := srcR;
        outIdxR := outIdxR + 1;
        outData[outIdxG] := srcG;
        outIdxG := outIdxG + 1;
        outData[outIdxB] := srcB;
        outIdxB := outIdxB + 1;
        x := x + 1;
      }
      y := y + 1;
    }

    dims := [n, c, height, width];
    TensorPrefixDone(bytes, size);
  }

  /**
   * The four values tensorToImageData stores for pixel `k`, from byte
   * `d == 4 * k` on: the pixel's red, green and blue, read at `k`, `g == n + k`
   * and `b == 2 * n + k` of the three planes of `n` values, then the opaque
   * alpha.
   */
  lemma PixelValues(t: seq<int>, n: nat, k: nat, g: nat, b: nat, d: nat)
    requires 3 * n <= |t| && k < n && g == n + k && b == 2 * n + k && d == 4 * k
    ensures d + 4 <= |Interleave(Unplanes(t, n))|
    ensures Interleave(Unplanes(t, n))[d] == t[k]
    ensures Interleave(Unplanes(t, n))[d + 1] == t[g]
    ensures Interleave(Unplanes(t, n))[d + 2] == t[b]
    ensures Interleave(Unplanes(t, n))[d + 3] == 0xFF
  {
    InterleaveAt(Unplanes(t, n), k);
  }

  /** Four stores in a row, from byte `d` on, extend the stored prefix by four values. */
  lemma StoredPixel(vals: seq<int>, size: nat, d: nat)
    requires d + 4 <= |vals|
    ensures Stored(vals, size, d + 4)
         == Put(Put(Put(Put(Stored(vals, size, d), d, vals[d]), d + 1, vals[d + 1]), d + 2, vals[d + 2]), d + 3, vals[d + 3])
  {
    StoredStep(vals, size, d);
    StoredStep(vals, size, d + 1);
    StoredStep(vals, size, d + 2);
    StoredStep(vals, size, d + 3);
  }

  /** The four element stores of one pixel: its red, green and blue, then an opaque alpha. */
  method StorePixel(arr: array<Byte>, d: nat, r: int, g: int, b: int)
    modifies arr
    ensures arr[..] == Put(Put(Put(Put(old(arr[..]), d, r), d + 1, g), d + 2, b), d + 3, 0xFF)
  {
    Store(arr, d, r);
    Store(arr, d + 1, g);
    Store(arr, d + 2, b);
    Store(arr, d + 3, 0xFF);
  }

  /**
   * tensorToImageData before its final resize: reads three planes of
   * `h * w` values (`h`, `w` from the tensor's dims) and writes each pixel's
   * red, green, blue and an opaque alpha into a fresh Uint8ClampedArray of
   * `4 * (width * height)` bytes. Values are clamped into bytes; if the tensor
   * has more pixels than the array, the stores past its end are dropped, and
   * if it has fewer, the tail of the array stays zero.
   */
  method TensorToImageData(tData: array<int>, dims: seq<nat>, height: nat, width: nat) returns (arr: array<Byte>)
    requires |dims| == 4 && 3 * (dims[2] * dims[3]) <= tData.Length
    ensures fresh(arr)
    ensures arr.Length == 4 * (width * height)
    ensures arr[..] == Filled(Interleave(Unplanes(tData[..], dims[2] * dims[3])), 4 * (width * height))
  {
    arr := new Byte[4 * (width * height)](_ => 0);
    var h := dims[2];
    var w := dims[3];
    ghost var n := h * w;
    ghost var t := tData[..];
    ghost var vals := Interleave(Unplanes(t, h * w));
    assert arr[..] == Stored(vals, arr.Length, 0);

    var tIdxR := 0;
    var tIdxG := tIdxR + (h * w);
    var tIdxB := tIdxG + (h * w);

    var dstIdx := 0;
    var y := 0;
    while y < h
      invariant 0 <= y <= h
      invariant tIdxR == y * w <= n
      invariant tIdxG == n + tIdxR && tIdxB == 2 * n + tIdxR
      invariant dstIdx == 4 * tIdxR
      invariant arr[..] == Stored(vals, arr.Length, dstIdx)
      invariant tData[..] == t
    {
      RowSpan(y, h, w);
      ghost var rowStart := tIdxR;
      var x := 0;
      while x < w
        invariant 0 <= x <= w
        invariant tIdxR == rowStart + x
        invariant tIdxG == n + tIdxR && tIdxB == 2 * n + tIdxR
        invariant dstIdx == 4 * tIdxR
        invariant arr[..] == Stored(vals, arr.Length, dstIdx)
        invariant tData[..] == t
      {
        PixelValues(t, n, tIdxR, tIdxG, tIdxB, dstIdx);
        var r, g, b := tData[tIdxR], tData[tIdxG], tData[tIdxB];
        assert r == vals[dstIdx] && g == vals[dstIdx + 1] && b == vals[dstIdx + 2];
        StoredPixel(vals, arr.Length, dstIdx);
        StorePixel(arr, dstIdx, r, g, b);
        dstIdx := dstIdx + 4;
        tIdxR, tIdxG, tIdxB := tIdxR + 1, tIdxG + 1, tIdxB + 1;
        x := x + 1;
      }
      y := y + 1;
    }
    StoredAll(vals, arr.Length);
  }
}
