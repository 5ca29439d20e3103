/** The last step of the `/remove-background/` endpoint: the label grid produced by
    GrabCut becomes a 0/1 foreground mask, and that mask times 255 becomes the alpha
    channel of the image's RGBA copy. Decoding, the segmentation itself, the colour
    conversion and PNG encoding are library calls and are not part of this model. */
module BackgroundAlpha {

  /** A numpy `uint8` value. */
  type Byte = x: int | 0 <= x < 256

  datatype Option<T> = None | Some(value: T)

  /** OpenCV's GrabCut labels: definite background, definite foreground, probable
      background, probable foreground. */
  datatype Label = Background | Foreground | ProbableBackground | ProbableForeground {
    /** The value stored in the mask (`GC_BGD` = 0, `GC_FGD` = 1, `GC_PR_BGD` = 2, `GC_PR_FGD` = 3). */
    function Code(): Byte {
      match this
      case Background => 0
      case Foreground => 1
      case ProbableBackground => 2
      case ProbableForeground => 3
    }

    predicate IsForeground() {
      this == Foreground || this == ProbableForeground
    }
  }

  /** The label a mask value stands for; values above 3 stand for none. */
  function DecodeLabel(v: Byte): (l: Option<Label>)
    ensures l.Some? <==> v < 4
    ensures l.Some? ==> l.value.Code() == v
  {
    if v == 0 then Some(Background)
    else if v == 1 then Some(Foreground)
    else if v == 2 then Some(ProbableBackground)
    else if v == 3 then Some(ProbableForeground)
    else None
  }

  /** Every label is stored as a code that decodes back to it. */
  lemma DecodeCode(l: Label)
    ensures DecodeLabel(l.Code()) == Some(l)
  {
  }

  /** `np.where((mask == 2) | (mask == 0), 0, 1)` for one cell: a label code maps to 1
      exactly when it is a foreground label. */
  function ForegroundBit(v: Byte): (b: Byte)
    ensures b == 0 || b == 1
    ensures DecodeLabel(v).Some? ==> (b == 1 <==> DecodeLabel(v).value.IsForeground())
  {
    if v == 2 || v == 0 then 0 else 1
  }

  /** The cell-by-cell foreground mask of a label grid (`mask2`). */
  function ForegroundMask(mask: seq<seq<Byte>>): (mask2: seq<seq<Byte>>)
    ensures |mask2| == |mask|
    ensures forall i :: 0 <= i < |mask| ==> |mask2[i]| == |mask[i]|
    ensures forall i, j :: 0 <= i < |mask| && 0 <= j < |mask[i]| ==>
      (mask2[i][j] == 0 || mask2[i][j] == 1) &&
      (mask2[i][j] == 0 <==> mask[i][j] == 0 || mask[i][j] == 2)
  {
    seq(|mask|, i requires 0 <= i < |mask| =>
      seq(|mask[i]|, j requires 0 <= j < |mask[i]| => ForegroundBit(mask[i][j])))
  }

  /** Multiplication of two `uint8` values as numpy computes it: modulo 256. The result
      is the integer product when that fits in a byte, and otherwise differs from it by
      a multiple of 256. */
  function MulByte(a: Byte, b: Byte): (p: Byte)
    ensures a * b < 256 ==> p == a * b
    ensures (a * b - p) % 256 == 0
  {
    (a * b) % 256
  }

  /** The alpha value `mask2 * 255` for one cell: fully opaque for foreground, fully
      transparent otherwise; the multiplication never wraps for a 0/1 mask. */
  lemma AlphaOfLabel(v: Byte)
    ensures MulByte(ForegroundBit(v), 255) == if v == 0 || v == 2 then 0 else 255
    ensures MulByte(ForegroundBit(v), 255) == ForegroundBit(v) * 255
  {
  }

  /** `mask` has `height` rows of `width` cells each. */
  predicate IsGrid(mask: seq<seq<Byte>>, height: nat, width: nat) {
    |mask| == height && forall i :: 0 <= i < height ==> |mask[i]| == width
  }

  /** `img_rgba[:, :, 3] = mask2 * 255`: the alpha channel of every pixel is set from the
      mask, the three colour channels are left as they were. */
  method WriteAlpha(img: array3<Byte>, mask2: seq<seq<Byte>>)
    requires img.Length2 == 4
    requires IsGrid(mask2, img.Length0, img.Length1)
    modifies img
    ensures forall i, j :: 0 <= i < img.Length0 && 0 <= j < img.Length1 ==>
      img[i, j, 3] == MulByte(mask2[i][j], 255)
    ensures forall i, j, c :: 0 <= i < img.Length0 && 0 <= j < img.Length1 && 0 <= c < 3 ==>
      img[i, j, c] == old(img[i, j, c])
  {
    for i := 0 to img.Length0
      invariant forall y, x :: 0 <= y < i && 0 <= x < img.Length1 ==>
        img[y, x, 3] == MulByte(mask2[y][x], 255)
      invariant forall y, x, c :: 0 <= y < img.Length0 && 0 <= x < img.Length1 && 0 <= c < 3 ==>
        img[y, x, c] == old(img[y, x, c])
    {
      for j := 0 to img.Length1
        invariant forall y, x :: 0 <= y < i && 0 <= x < img.Length1 ==>
          img[y, x, 3] == MulByte(mask2[y][x], 255)
        invariant forall x :: 0 <= x < j ==> img[i, x, 3] == MulByte(mask2[i][x], 255)
        invariant forall y, x, c :: 0 <= y < img.Length0 && 0 <= x < img.Length1 && 0 <= c < 3 ==>
          img[y, x, c] == old(img[y, x, c])
      {
        img[i, j, 3] := MulByte(mask2[i][j], 255);
      }
    }
  }

  /** Lines 106 and 110 of the endpoint together: after the step every alpha value is
      0 or 255, it is 255 exactly where the GrabCut label is neither background label,
      and the colour channels are unchanged. */
  method ApplyGrabCutMask(img: array3<Byte>, mask: seq<seq<Byte>>)
    requires img.Length2 == 4
    requires IsGrid(mask, img.Length0, img.Length1)
    modifies img
    ensures forall i, j :: 0 <= i < img.Length0 && 0 <= j < img.Length1 ==>
      img[i, j, 3] == if mask[i][j] == 0 || mask[i][j] == 2 then 0 else 255
    ensures forall i, j :: 0 <= i < img.Length0 && 0 <= j < img.Length1 ==>
      DecodeLabel(mask[i][j]).Some? ==> (img[i, j, 3] == 255 <==> DecodeLabel(mask[i][j]).value.IsForeground())
    ensures forall i, j, c :: 0 <= i < img.Length0 && 0 <= j < img.Length1 && 0 <= c < 3 ==>
      img[i, j, c] == old(img[i, j, c])
  {
    var mask2 := ForegroundMask(mask);
    WriteAlpha(img, mask2);
    forall i, j | 0 <= i < img.Length0 && 0 <= j < img.Length1
      ensures img[i, j, 3] == if mask[i][j] == 0 || mask[i][j] == 2 then 0 else 255
    {
      assert mask2[i][j] == ForegroundBit(mask[i][j]);
      AlphaOfLabel(mask[i][j]);
    }
  }
}
