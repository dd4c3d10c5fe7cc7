/**
 * The compositing step of the per-frame loop: wherever the thresholded
 * segmentation mask does not mark the person, the webcam frame's colour is
 * replaced, in place, by the colour the style-transfer network produced for
 * that pixel. The mask and the style image are inputs here; both have been
 * resized to the frame's height and width before this step runs.
 */
module Compositing {
  import opened Bytes

  /**
   * The frame after compositing, pixel by pixel: a pixel whose mask value is
   * 1 keeps its four bytes; any other pixel takes its red, green and blue
   * from the interleaved 3-channel style buffer, each stored into a byte,
   * and keeps its alpha.
   */
  function Composited(frame: seq<Byte>, mask: seq<int>, style: seq<int>): (r: seq<Byte>)
    requires |frame| == 4 * |mask| && |style| == 3 * |mask|
    ensures |r| == |frame|
    decreases |mask|
  {
    if mask == [] then []
    else
      (if mask[0] == 1 then frame[..4] else [Clamp(style[0]), Clamp(style[1]), Clamp(style[2]), frame[3]])
      + Composited(frame[4..], mask[1..], style[3..])
  }

  /** The test `arrMask[i] !== 1`: reading past the end of the mask gives undefined, which is not 1. */
  function IsBackground(mask: seq<int>, i: nat): (background: bool)
    ensures i >= |mask| ==> background
    ensures i < |mask| ==> (background <==> mask[i] != 1)
  {
    i >= |mask| || mask[i] != 1
  }

  /**
   * The value `resizedStyleTransferArr[j]` as a byte store sees it: reading
   * past the end gives undefined, which a Uint8ClampedArray stores as 0.
   */
  function StyleValue(style: seq<int>, j: nat): (v: int)
    ensures j < |style| ==> v == style[j]
    ensures j >= |style| ==> Clamp(v) == 0
  {
    if j < |style| then style[j] else 0
  }

  /**
   * Byte `c` of pixel `p` after compositing: the alpha byte (`c == 3`) and
   * every byte of a pixel with mask value 1 are the frame's; the red, green
   * and blue bytes of any other pixel are style values `p * 3`, `p * 3 + 1`,
   * `p * 3 + 2` clamped into bytes.
   */
  lemma {:induction false} CompositedAt(frame: seq<Byte>, mask: seq<int>, style: seq<int>, p: nat, c: nat)
    requires |frame| == 4 * |mask| && |style| == 3 * |mask| && p < |mask| && c < 4
    ensures Composited(frame, mask, style)[p * 4 + c]
         == if c != 3 && mask[p] != 1 then Clamp(style[p * 3 + c]) else frame[p * 4 + c]
    decreases p
  {
    if p > 0 {
      CompositedAt(frame[4..], mask[1..], style[3..], p - 1, c);
    }
  }

  /** Compositing twice with the same mask and style changes nothing more. */
  lemma {:induction false} CompositedIdempotent(frame: seq<Byte>, mask: seq<int>, style: seq<int>)
    requires |frame| == 4 * |mask| && |style| == 3 * |mask|
    ensures Composited(Composited(frame, mask, style), mask, style) == Composited(frame, mask, style)
    decreases |mask|
  {
    if mask != [] {
      var r := Composited(frame, mask, style);
      var rest := Composited(frame[4..], mask[1..], style[3..]);
      assert r[4..] == rest;
      CompositedIdempotent(frame[4..], mask[1..], style[3..]);
    }
  }

  /**
   * The frame after the compositing loop's first `i` iterations: iteration
   * `p` overwrites bytes `p * 4`, `p * 4 + 1` and `p * 4 + 2` with style
   * values `p * 3`, `p * 3 + 1` and `p * 3 + 2` when pixel `p` is background.
   */
  ghost function CompositedPrefix(frame: seq<Byte>, mask: seq<int>, style: seq<int>, i: nat): (r: seq<Byte>)
    ensures |r| == |frame|
  {
    if i == 0 then frame
    else
      var s, p := CompositedPrefix(frame, mask, style, i - 1), i - 1;
      if IsBackground(mask, p) then
        Put(Put(Put(s, p * 4, StyleValue(style, p * 3)), p * 4 + 1, StyleValue(style, p * 3 + 1)),
            p * 4 + 2, StyleValue(style, p * 3 + 2))
      else s
  }

  lemma CompositedPrefixStep(frame: seq<Byte>, mask: seq<int>, style: seq<int>, i: nat)
    ensures CompositedPrefix(frame, mask, style, i + 1)
         == if IsBackground(mask, i) then
              Put(Put(Put(CompositedPrefix(frame, mask, style, i), i * 4, StyleValue(style, i * 3)),
                      i * 4 + 1, StyleValue(style, i * 3 + 1)),
                  i * 4 + 2, StyleValue(style, i * 3 + 2))
            else CompositedPrefix(frame, mask, style, i)
  {
  }

  /**
   * Byte `c` of pixel `p` after `i` iterations: the red, green or blue byte
   * of a background pixel below `i` holds its style value clamped; every
   * other byte is the frame's.
   */
  lemma {:induction false} CompositedPrefixAt(frame: seq<Byte>, mask: seq<int>, style: seq<int>, i: nat, p: nat, c: nat)
    requires c < 4 && p * 4 + c < |frame|
    ensures CompositedPrefix(frame, mask, style, i)[p * 4 + c]
         == if p < i && c != 3 && IsBackground(mask, p)
            then Clamp(StyleValue(style, p * 3 + c))
            else frame[p * 4 + c]
  {
    if i > 0 {
      var q, j := i - 1, p * 4 + c;
      var s := CompositedPrefix(frame, mask, style, q);
      CompositedPrefixAt(frame, mask, style, q, p, c);
      if IsBackground(mask, q) {
        var s1 := Put(s, q * 4, StyleValue(style, q * 3));
        var s2 := Put(s1, q * 4 + 1, StyleValue(style, q * 3 + 1));
        PutAt(s, q * 4, StyleValue(style, q * 3), j);
        PutAt(s1, q * 4 + 1, StyleValue(style, q * 3 + 1), j);
        PutAt(s2, q * 4 + 2, StyleValue(style, q * 3 + 2), j);
        if p != q {
          assert j != q * 4 && j != q * 4 + 1 && j != q * 4 + 2;
        }
      }
    }
  }

  /**
   * The iterations at or past the pixel count change nothing: the mask read
   * there is undefined, so they store, but only past the end of the frame.
   */
  lemma {:induction false} CompositedPastPixels(frame: seq<Byte>, mask: seq<int>, style: seq<int>, i: nat)
    requires |frame| == 4 * |mask| && |mask| <= i
    ensures CompositedPrefix(frame, mask, style, i) == CompositedPrefix(frame, mask, style, |mask|)
    decreases i
  {
    if i > |mask| {
      CompositedPastPixels(frame, mask, style, i - 1);
      assert IsBackground(mask, i - 1) && (i - 1) * 4 >= |frame|;
    }
  }

  /** After all `4 * |mask|` iterations the frame is composited pixel by pixel. */
  lemma CompositedPrefixDone(frame: seq<Byte>, mask: seq<int>, style: seq<int>)
    requires |frame| == 4 * |mask| && |style| == 3 * |mask|
    ensures CompositedPrefix(frame, mask, style, |frame|) == Composited(frame, mask, style)
  {
    var done, target := CompositedPrefix(frame, mask, style, |frame|), Composited(frame, mask, style);
    forall j | 0 <= j < |frame|
      ensures done[j] == target[j]
    {
      var p, c := j / 4, j % 4;
      assert j == p * 4 + c && p < |mask|;
      CompositedPrefixAt(frame, mask, style, |frame|, p, c);
      CompositedAt(frame, mask, style, p, c);
    }
  }

  /**
   * The compositing loop of laptopSegmentationalStyleTransfer, on the frame's
   * RGBA bytes. It counts `i` up to the byte length, four times the pixel
   * count; for `i` at or past the pixel count the mask read gives undefined
   * and the stores land past the end of the buffer, where they are dropped,
   * so the frame ends up exactly as compositing pixel by pixel leaves it.
   */
  method Composite(data: array<Byte>, mask: seq<int>, style: seq<int>)
    requires data.Length == 4 * |mask| && |style| == 3 * |mask|
    modifies data
    ensures data[..] == Composited(old(data[..]), mask, style)
  {
    ghost var frame := data[..];
    var i := 0;
    while i < data.Length
      invariant 0 <= i <= data.Length
      invariant data[..] == CompositedPrefix(frame, mask, style, i)
    {
      CompositedPrefixStep(frame, mask, style, i);
      if IsBackground(mask, i) {
        Store(data, i * 4, StyleValue(style, i * 3));
        Store(data, i * 4 + 1, StyleValue(style, i * 3 + 1));
        Store(data, i * 4 + 2, StyleValue(style, i * 3 + 2));
      }
      i := i + 1;
    }
    CompositedPrefixDone(frame, mask, style);
  }
}
