/**
 The alpha mask that the BodyPix component's `visualizeSegmentation` builds from a
 person segmentation: one RGBA pixel (four bytes) per label of the segmentation, laid
 out at the segmentation's own width and height. A background label gives an opaque
 white pixel, a person label a fully transparent black one.
 */
module SegmentationMask {

  /** The byte value written for every channel of a background pixel. */
  const OPAQUE_WHITE: int := 255

  /** JavaScript truthiness of a numeric segmentation label: every value but 0 is truthy. */
  predicate Truthy(v: int) {
    v != 0
  }

  /**
   The four RGBA bytes one loop iteration leaves for a pixel. For a truthy (person) label
   only the alpha byte is written, with 0, and the colour bytes keep the buffer's initial 0;
   for a falsy (background) label all four bytes are written with 255.
   */
  function PixelBytes(v: int): (p: seq<int>) {
    if Truthy(v) then [0, 0, 0, 0]
    else [OPAQUE_WHITE, OPAQUE_WHITE, OPAQUE_WHITE, OPAQUE_WHITE]
  }

  /** A zero-filled run of bytes, as a freshly allocated typed array holds. */
  function Zeros(n: nat): (z: seq<int>)
    ensures |z| == n
    ensures forall k :: 0 <= k < n ==> z[k] == 0
  {
    seq(n, _ => 0)
  }

  /** The bytes written for the labels of `data`, pixel after pixel, in loop order. */
  function Pixels(data: seq<int>): (bytes: seq<int>)
    ensures |bytes| == 4 * |data|
  {
    if data == [] then []
    else Pixels(data[..|data| - 1]) + PixelBytes(data[|data| - 1])
  }

  /**
   The whole mask buffer: `4 * w * h` bytes, the pixels of the labels first and the
   never-written remainder still zero.
   */
  function MaskBuffer(data: seq<int>, w: nat, h: nat): (m: seq<int>)
    requires |data| <= w * h
  {
    Pixels(data) + Zeros(4 * (w * h - |data|))
  }

  /**
   Reference definition of byte `k` of the mask, independent of the loop order: 255 exactly
   when `k` lies in the pixel of a falsy label, 0 otherwise.
   */
  function MaskByte(data: seq<int>, k: nat): (b: int) {
    if k / 4 < |data| && !Truthy(data[k / 4]) then OPAQUE_WHITE else 0
  }

  /**
   One iteration of the mask loop for pixel `i` with label `v`: a truthy label writes only
   the alpha byte, with 0; a falsy one writes 255 into all four bytes. Nothing outside
   bytes `4 * i .. 4 * i + 3` changes.
   */
  method WritePixel(maskData: array<int>, i: nat, v: int)
    requires 4 * i + 4 <= maskData.Length
    modifies maskData
    ensures maskData[4 * i + 3] == if Truthy(v) then 0 else OPAQUE_WHITE
    ensures forall c :: 4 * i <= c < 4 * i + 3 ==>
      maskData[c] == if Truthy(v) then old(maskData[c]) else OPAQUE_WHITE
    ensures forall k :: 0 <= k < maskData.Length && !(4 * i <= k < 4 * i + 4) ==>
      maskData[k] == old(maskData[k])
  {
    if Truthy(v) {
      maskData[i * 4 + 3] := 0;
    } else {
      maskData[i * 4] := OPAQUE_WHITE;
      maskData[i * 4 + 1] := OPAQUE_WHITE;
      maskData[i * 4 + 2] := OPAQUE_WHITE;
      maskData[i * 4 + 3] := OPAQUE_WHITE;
    }
  }

  /**
   Builds the mask buffer as the source does: a zero-initialised array of `4 * w * h`
   bytes, then one `WritePixel` per label, in index order.
   */
  method BuildMask(data: seq<int>, w: nat, h: nat) returns (maskData: array<int>)
    requires |data| <= w * h
    ensures fresh(maskData)
    ensures maskData[..] == MaskBuffer(data, w, h)
  {
    maskData := new int[w * h * 4](_ => 0);
    var i := 0;
    while i < |data|
      invariant 0 <= i <= |data|
      invariant maskData.Length == 4 * (w * h)
      invariant maskData[..4 * i] == Pixels(data[..i])
      invariant forall k :: 4 * i <= k < maskData.Length ==> maskData[k] == 0
    {
      ghost var next := maskData[..4 * i] + PixelBytes(data[i]);
      WritePixel(maskData, i, data[i]);
      assert maskData[..4 * (i + 1)] == next;
      PixelsExtend(data, i);
      i := i + 1;
    }
    assert data[..i] == data;
    assert maskData[..] == maskData[..4 * i] + maskData[4 * i..];
  }

  /** The pixels of the first `i + 1` labels extend those of the first `i` by the pixel of label `i`. */
  lemma PixelsExtend(data: seq<int>, i: nat)
    requires i < |data|
    ensures Pixels(data[..i + 1]) == Pixels(data[..i]) + PixelBytes(data[i])
  {
    assert data[..i + 1][..i] == data[..i];
  }

  /** Byte `k` of the loop-ordered pixels is channel `k % 4` of the pixel of label `k / 4`. */
  lemma {:induction false} PixelsAt(data: seq<int>, k: nat)
    requires k < 4 * |data|
    ensures Pixels(data)[k] == PixelBytes(data[k / 4])[k % 4]
  {
    var n := |data| - 1;
    if k < 4 * n {
      PixelsAt(data[..n], k);
    } else {
      assert k / 4 == n;
    }
  }

  /** The mask buffer has length `4 * w * h` and agrees byte for byte with `MaskByte`. */
  lemma MaskBufferAt(data: seq<int>, w: nat, h: nat, k: nat)
    requires |data| <= w * h
    requires k < 4 * (w * h)
    ensures |MaskBuffer(data, w, h)| == 4 * (w * h)
    ensures MaskBuffer(data, w, h)[k] == MaskByte(data, k)
  {
    if k < 4 * |data| {
      PixelsAt(data, k);
    }
  }

  /** The four bytes of pixel `i`: the pixel of its label if it has one, zero otherwise. */
  lemma PixelOfMask(data: seq<int>, w: nat, h: nat, i: nat)
    requires |data| <= w * h
    requires i < w * h
    ensures 4 * i + 4 <= |MaskBuffer(data, w, h)|
    ensures MaskBuffer(data, w, h)[4 * i..4 * i + 4] ==
      if i < |data| then PixelBytes(data[i]) else [0, 0, 0, 0]
  {
    var pixel := if i < |data| then PixelBytes(data[i]) else [0, 0, 0, 0];
    forall c | 0 <= c < 4
      ensures MaskBuffer(data, w, h)[4 * i + c] == pixel[c]
    {
      MaskBufferAt(data, w, h, 4 * i + c);
      assert (4 * i + c) / 4 == i;
    }
  }

  /** The buffer length is exactly `4 * w * h` and every byte is in 0..255. */
  lemma MaskBufferIsByteRaster(data: seq<int>, w: nat, h: nat)
    requires |data| <= w * h
    ensures |MaskBuffer(data, w, h)| == 4 * (w * h)
    ensures forall k :: 0 <= k < 4 * (w * h) ==> 0 <= MaskBuffer(data, w, h)[k] <= 255
  {
    forall k | 0 <= k < 4 * (w * h)
      ensures 0 <= MaskBuffer(data, w, h)[k] <= 255
    {
      MaskBufferAt(data, w, h, k);
    }
  }

  /** A pixel with a truthy label is (0, 0, 0, 0): transparent with black colour bytes. */
  lemma TruthyPixelIsTransparent(data: seq<int>, w: nat, h: nat, i: nat)
    requires |data| <= w * h
    requires i < |data| && Truthy(data[i])
    ensures 4 * i + 3 < |MaskBuffer(data, w, h)|
    ensures MaskBuffer(data, w, h)[4 * i..4 * i + 4] == [0, 0, 0, 0]
  {
    PixelOfMask(data, w, h, i);
  }

  /** A pixel with a falsy label is (255, 255, 255, 255): opaque white. */
  lemma FalsyPixelIsOpaqueWhite(data: seq<int>, w: nat, h: nat, i: nat)
    requires |data| <= w * h
    requires i < |data| && !Truthy(data[i])
    ensures 4 * i + 3 < |MaskBuffer(data, w, h)|
    ensures MaskBuffer(data, w, h)[4 * i..4 * i + 4] == [OPAQUE_WHITE, OPAQUE_WHITE, OPAQUE_WHITE, OPAQUE_WHITE]
  {
    PixelOfMask(data, w, h, i);
  }

  /** Pixels past the end of the label array are never written and stay (0, 0, 0, 0). */
  lemma UnlabelledPixelIsZero(data: seq<int>, w: nat, h: nat, i: nat)
    requires |data| <= i < w * h
    ensures 4 * i + 3 < |MaskBuffer(data, w, h)|
    ensures MaskBuffer(data, w, h)[4 * i..4 * i + 4] == [0, 0, 0, 0]
  {
    PixelOfMask(data, w, h, i);
  }

  /** The alpha byte of a labelled pixel is 255 if and only if its label is falsy (background). */
  lemma AlphaMarksBackground(data: seq<int>, w: nat, h: nat, i: nat)
    requires |data| <= w * h
    requires i < |data|
    ensures 4 * i + 3 < |MaskBuffer(data, w, h)|
    ensures MaskBuffer(data, w, h)[4 * i + 3] == OPAQUE_WHITE <==> !Truthy(data[i])
    ensures MaskBuffer(data, w, h)[4 * i + 3] == 0 <==> Truthy(data[i])
  {
    MaskBufferAt(data, w, h, 4 * i + 3);
    assert (4 * i + 3) / 4 == i;
  }

  /**
   One more loop iteration (label `x` at index `|data|`) changes only the four bytes of
   pixel `|data|`, which become the pixel of `x`; every other byte is left as it was.
   */
  lemma IterationWritesOnlyItsPixel(data: seq<int>, x: int, w: nat, h: nat)
    requires |data| < w * h
    ensures |MaskBuffer(data + [x], w, h)| == |MaskBuffer(data, w, h)| == 4 * (w * h)
    ensures MaskBuffer(data + [x], w, h)[4 * |data|..4 * |data| + 4] == PixelBytes(x)
    ensures forall k :: 0 <= k < 4 * (w * h) && !(4 * |data| <= k < 4 * |data| + 4) ==>
      MaskBuffer(data + [x], w, h)[k] == MaskBuffer(data, w, h)[k]
  {
    var longer := data + [x];
    assert longer[..|data|] == data;
    assert Pixels(longer) == Pixels(data) + PixelBytes(x);
    forall k | 0 <= k < 4 * (w * h) && !(4 * |data| <= k < 4 * |data| + 4)
      ensures MaskBuffer(longer, w, h)[k] == MaskBuffer(data, w, h)[k]
    {
      MaskBufferAt(data, w, h, k);
      MaskBufferAt(longer, w, h, k);
      if k / 4 < |data| {
        assert longer[k / 4] == data[k / 4];
      }
    }
  }

  /**
   A segmentation whose every label is a person (for instance an all-foreground grid)
   gives a mask that is zero throughout: fully transparent.
   */
  lemma AllPersonMaskIsTransparent(data: seq<int>, w: nat, h: nat)
    requires |data| <= w * h
    requires forall i :: 0 <= i < |data| ==> Truthy(data[i])
    ensures MaskBuffer(data, w, h) == Zeros(4 * (w * h))
  {
    forall k | 0 <= k < 4 * (w * h)
      ensures MaskBuffer(data, w, h)[k] == 0
    {
      MaskBufferAt(data, w, h, k);
    }
  }
}
