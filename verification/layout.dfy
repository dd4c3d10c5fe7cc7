/**
 * The two pixel layouts the frame passes through: the interleaved RGBA bytes
 * of a canvas ImageData (4 bytes per pixel, row-major) and the planar tensor
 * of shape [1, 3, height, width] (a red plane, then a green plane, then a
 * blue plane, each row-major). The functions here say, pixel by pixel, what
 * the conversion loops of module Marshal compute; the lemmas give their
 * meaning index by index and prove that the two conversions undo each other.
 */
module Layout {
  import opened Bytes

  /** The colour of one pixel; the alpha byte is not part of it. */
  datatype Rgb = Rgb(r: int, g: int, b: int)

  /** Channel `c` of a pixel: 0 is red, 1 green, 2 blue. */
  function Component(p: Rgb, c: nat): int
    requires c < 3
  {
    if c == 0 then p.r else if c == 1 then p.g else p.b
  }

  /** The pixels of an interleaved RGBA buffer; each pixel's fourth (alpha) byte is dropped. */
  function Pixels(s: seq<int>): (px: seq<Rgb>)
    requires |s| % 4 == 0
    ensures |px| == |s| / 4
  {
    seq(|s| / 4, k requires 0 <= k < |s| / 4 => Rgb(s[4 * k], s[4 * k + 1], s[4 * k + 2]))
  }

  /** One colour plane: channel `c` of every pixel, in pixel order. */
  function Channel(px: seq<Rgb>, c: nat): (plane: seq<int>)
    requires c < 3
    ensures |plane| == |px|
  {
    seq(|px|, k requires 0 <= k < |px| => Component(px[k], c))
  }

  /** The planar layout: the red plane, then the green plane, then the blue plane. */
  function Planes(px: seq<Rgb>): (t: seq<int>)
    ensures |t| == 3 * |px|
  {
    Channel(px, 0) + Channel(px, 1) + Channel(px, 2)
  }

  /** Pairs three planes of equal size up into pixels. */
  function Zip3(rs: seq<int>, gs: seq<int>, bs: seq<int>): (px: seq<Rgb>)
    requires |rs| == |gs| == |bs|
    ensures |px| == |rs|
  {
    seq(|rs|, k requires 0 <= k < |rs| => Rgb(rs[k], gs[k], bs[k]))
  }

  /** The pixels of planar data whose planes hold `n` values each. */
  function Unplanes(t: seq<int>, n: nat): (px: seq<Rgb>)
    requires 3 * n <= |t|
    ensures |px| == n
  {
    Zip3(t[..n], t[n..2 * n], t[2 * n..3 * n])
  }

  /**
   * The values written, in order, into the interleaved RGBA buffer for the
   * pixels: red, green, blue, then an opaque alpha (0xFF). The buffer clamps
   * each of them into a byte as it is stored (see Bytes.Filled).
   */
  function Interleave(px: seq<Rgb>): (s: seq<int>)
    ensures |s| == 4 * |px|
  {
    if px == [] then []
    else [px[0].r, px[0].g, px[0].b, 0xFF] + Interleave(px[1..])
  }

  /** Pixel `k`'s red, green and blue sit at `k`, `n + k` and `2n + k` of the planar data. */
  lemma PlanesAt(px: seq<Rgb>, k: nat)
    requires k < |px|
    ensures Planes(px)[k] == px[k].r
    ensures Planes(px)[|px| + k] == px[k].g
    ensures Planes(px)[2 * |px| + k] == px[k].b
  {
    assert Planes(px)[|px| + k] == Channel(px, 1)[k];
    assert Planes(px)[2 * |px| + k] == Channel(px, 2)[k];
  }

  /**
   * Interleaved to planar, index by index: for pixel `k = y * width + x` the
   * tensor holds the bytes at `4k`, `4k + 1` and `4k + 2` of the source at
   * `k`, `height * width + k` and `2 * height * width + k`.
   */
  lemma TensorAt(src: seq<int>, height: nat, width: nat, k: nat)
    requires |src| == 4 * (height * width) && k < height * width
    ensures |Planes(Pixels(src))| == 3 * (height * width)
    ensures Planes(Pixels(src))[k] == src[4 * k]
    ensures Planes(Pixels(src))[height * width + k] == src[4 * k + 1]
    ensures Planes(Pixels(src))[2 * (height * width) + k] == src[4 * k + 2]
  {
    PlanesAt(Pixels(src), k);
  }

  /**
   * Conversely, data of `3n` values that holds the bytes at `4k`, `4k + 1`
   * and `4k + 2` of an image of `n` pixels at `k`, `n + k` and `2n + k` is
   * that image's planar layout.
   */
  lemma TensorFromImageData(t: seq<int>, src: seq<int>, n: nat)
    requires |src| == 4 * n && |t| == 3 * n
    requires forall k :: 0 <= k < n ==> t[k] == src[4 * k]
    requires forall k :: n <= k < 2 * n ==> t[k] == src[4 * (k - n) + 1]
    requires forall k :: 2 * n <= k < 3 * n ==> t[k] == src[4 * (k - 2 * n) + 2]
    ensures t == Planes(Pixels(src))
  {
    var px := Pixels(src);
    forall i | 0 <= i < 3 * n
      ensures t[i] == Planes(px)[i]
    {
      var k := if i < n then i else if i < 2 * n then i - n else i - 2 * n;
      PlanesAt(px, k);
    }
  }

  /** The alpha bytes of the source never reach the tensor: buffers that differ only there give the same tensor. */
  lemma TensorIgnoresAlpha(s: seq<int>, s': seq<int>)
    requires |s| == |s'| && |s| % 4 == 0
    requires forall j :: 0 <= j < |s| && j % 4 != 3 ==> s[j] == s'[j]
    ensures Planes(Pixels(s)) == Planes(Pixels(s'))
  {
    forall k | 0 <= k < |s| / 4
      ensures Pixels(s)[k] == Pixels(s')[k]
    {
      ColourOffsets(k);
    }
    assert Pixels(s) == Pixels(s');
  }

  /** The colour bytes of pixel `k` are not alpha bytes. */
  lemma ColourOffsets(k: nat)
    ensures (4 * k) % 4 == 0 && (4 * k + 1) % 4 == 1 && (4 * k + 2) % 4 == 2
  {
  }

  /** Pixel `k` occupies values `4k .. 4k + 3` of the interleaved buffer, its alpha opaque. */
  lemma {:induction false} InterleaveAt(px: seq<Rgb>, k: nat)
    requires k < |px|
    ensures Interleave(px)[4 * k] == px[k].r
    ensures Interleave(px)[4 * k + 1] == px[k].g
    ensures Interleave(px)[4 * k + 2] == px[k].b
    ensures Interleave(px)[4 * k + 3] == 0xFF
    decreases k
  {
    if k > 0 {
      InterleaveAt(px[1..], k - 1);
    }
  }

  /**
   * Planar to interleaved, index by index: byte `4k + c` of the image holds
   * value `c * n + k` of the tensor clamped into a byte, and byte `4k + 3` is
   * 0xFF, for every pixel `k` that fits in the image.
   */
  lemma ImageDataAt(t: seq<int>, n: nat, size: nat, k: nat)
    requires 3 * n <= |t| && k < n && 4 * k + 3 < size
    ensures Filled(Interleave(Unplanes(t, n)), size)[4 * k] == Clamp(t[k])
    ensures Filled(Interleave(Unplanes(t, n)), size)[4 * k + 1] == Clamp(t[n + k])
    ensures Filled(Interleave(Unplanes(t, n)), size)[4 * k + 2] == Clamp(t[2 * n + k])
    ensures Filled(Interleave(Unplanes(t, n)), size)[4 * k + 3] == 255
  {
    InterleaveAt(Unplanes(t, n), k);
  }

  lemma PixelsOfInterleave(px: seq<Rgb>)
    ensures Pixels(Interleave(px)) == px
  {
    forall k | 0 <= k < |px|
      ensures Pixels(Interleave(px))[k] == px[k]
    {
      InterleaveAt(px, k);
    }
  }

  /** Byte `j` of an interleaved buffer is byte `c == j % 4` of pixel `k == j / 4`. */
  lemma PixelOffset(j: nat) returns (k: nat, c: nat)
    ensures c < 4 && j == 4 * k + c
    ensures c == 0 ==> j == 4 * k
    ensures c == 1 ==> j == 4 * k + 1
    ensures c == 2 ==> j == 4 * k + 2
    ensures c == 3 ==> j == 4 * k + 3
  {
    k, c := j / 4, j % 4;
  }

  /** Pixel `k` of an opaque buffer, interleaved again, is the buffer's own four bytes. */
  lemma PixelRoundTrip(s: seq<int>, k: nat)
    requires |s| % 4 == 0 && k < |s| / 4
    requires forall j :: 0 <= j < |s| && j % 4 == 3 ==> s[j] == 255
    ensures Interleave(Pixels(s))[4 * k] == s[4 * k]
    ensures Interleave(Pixels(s))[4 * k + 1] == s[4 * k + 1]
    ensures Interleave(Pixels(s))[4 * k + 2] == s[4 * k + 2]
    ensures Interleave(Pixels(s))[4 * k + 3] == s[4 * k + 3]
  {
    InterleaveAt(Pixels(s), k);
    assert (4 * k + 3) % 4 == 3;
  }

  lemma InterleaveOfPixels(s: seq<int>)
    requires |s| % 4 == 0
    requires forall j :: 0 <= j < |s| && j % 4 == 3 ==> s[j] == 255
    ensures Interleave(Pixels(s)) == s
  {
    forall j | 0 <= j < |s|
      ensures Interleave(Pixels(s))[j] == s[j]
    {
      var k, c := PixelOffset(j);
      PixelRoundTrip(s, k);
    }
  }

  /** The interleaved values of pixels whose channels are bytes are all bytes. */
  lemma InterleaveBytes(t: seq<int>, n: nat)
    requires |t| == 3 * n
    requires forall i :: 0 <= i < |t| ==> 0 <= t[i] < 256
    ensures forall i :: 0 <= i < 4 * n ==> 0 <= Interleave(Unplanes(t, n))[i] < 256
  {
    var px := Unplanes(t, n);
    forall i | 0 <= i < 4 * n
      ensures 0 <= Interleave(px)[i] < 256
    {
      var k, c := PixelOffset(i);
      InterleaveAt(px, k);
    }
  }

  /** Pairing three planes up into pixels and splitting them again gives the planes back. */
  lemma PlanesOfUnplanes(t: seq<int>, n: nat)
    requires |t| == 3 * n
    ensures Planes(Unplanes(t, n)) == t
  {
    var px := Unplanes(t, n);
    forall i | 0 <= i < 3 * n
      ensures Planes(px)[i] == t[i]
    {
      var k := if i < n then i else if i < 2 * n then i - n else i - 2 * n;
      PlanesAt(px, k);
    }
  }

  /** Splitting pixels into planes and pairing the planes up again gives the pixels back. */
  lemma UnplanesOfPlanes(px: seq<Rgb>)
    ensures Unplanes(Planes(px), |px|) == px
  {
    forall k | 0 <= k < |px|
      ensures Unplanes(Planes(px), |px|)[k] == px[k]
    {
      PlanesAt(px, k);
    }
  }

  /**
   * Planar to interleaved to planar: converting byte-valued planes of `n`
   * values each into an image of exactly `n` pixels and back gives them back.
   */
  lemma RoundTripPlanar(t: seq<int>, n: nat)
    requires |t| == 3 * n
    requires forall i :: 0 <= i < |t| ==> 0 <= t[i] < 256
    ensures Planes(Pixels(Filled(Interleave(Unplanes(t, n)), 4 * n))) == t
  {
    var px := Unplanes(t, n);
    InterleaveBytes(t, n);
    FilledBytes(Interleave(px));
    PixelsOfInterleave(px);
    PlanesOfUnplanes(t, n);
  }

  /**
   * Interleaved to planar to interleaved: an opaque image (every alpha byte
   * 0xFF) converted into planes and back gives itself back.
   */
  lemma RoundTripInterleaved(s: seq<Byte>)
    requires |s| % 4 == 0
    requires forall j :: 0 <= j < |s| && j % 4 == 3 ==> s[j] == 255
    ensures Filled(Interleave(Unplanes(Planes(Pixels(s)), |s| / 4)), |s|) == s
  {
    UnplanesOfPlanes(Pixels(s));
    InterleaveOfPixels(s);
    FilledBytes(s);
  }
}
